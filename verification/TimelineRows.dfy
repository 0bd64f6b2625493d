/** Timeline rows: every top-level entry with its replies folded in, breadth first. */
module TimelineRows {
  import opened Prelude
  import opened Timeline
  import opened RowSearch

  datatype Row = Row(entry: Entry, replies: seq<Entry>)

  /** Each reply comes after its parent, which is the row's entry or an earlier reply. */
  ghost predicate ParentsFirst(rootId: string, out: seq<Entry>) {
    forall i: nat :: i < |out| ==> ParentBefore(rootId, out, i)
  }

  ghost predicate ParentBefore(rootId: string, out: seq<Entry>, i: nat)
    requires i < |out|
  {
    HasParent(out[i]) && out[i].parentId.value in Nodes(rootId, out[..i])
  }

  /** `out` is the breadth-first expansion of `rootId`: the replies of the row's
      members, in the members' own order, with no reply occurring twice. */
  ghost predicate IsExpansion(loaded: set<string>, es: seq<Entry>, rootId: string, out: seq<Entry>) {
    && out == AllKids(loaded, es, Nodes(rootId, out))
    && ParentsFirst(rootId, out)
    && NoDuplicates(Nodes(rootId, out))
  }

  ghost predicate IsRow(loaded: set<string>, es: seq<Entry>, row: Row) {
    if row.entry.kind.Comment? then IsExpansion(loaded, es, row.entry.id, row.replies) else row.replies == []
  }

  function Entries(rows: seq<Row>): seq<Entry> {
    seq(|rows|, i requires 0 <= i < |rows| => rows[i].entry)
  }

  /** One row per top-level entry, in order. */
  ghost predicate AreRows(es: seq<Entry>, rows: seq<Row>) {
    var loaded := CommentIds(es);
    && |rows| == |TopLevel(loaded, es)|
    && forall i :: 0 <= i < |rows| ==> rows[i].entry == TopLevel(loaded, es)[i] && IsRow(loaded, es, rows[i])
  }

  // ----- the direct replies ---------------------------------------------------

  lemma {:induction false} TopLevelMembers(loaded: set<string>, es: seq<Entry>)
    ensures forall e :: e in TopLevel(loaded, es) <==> e in es && !IsReply(loaded, e)
    ensures DistinctIds(es) ==> DistinctIds(TopLevel(loaded, es))
  {
    if es != [] {
      TopLevelMembers(loaded, es[..|es| - 1]);
      SplitLast(es);
      var rest := TopLevel(loaded, es[..|es| - 1]);
      forall k | 0 <= k < |rest|
        ensures rest[k] in es[..|es| - 1]
      {
        assert rest[k] in rest;
      }
    }
  }

  /** The top-level entries keep the order of the timeline. */
  lemma {:induction false} TopLevelFollows(loaded: set<string>, es: seq<Entry>)
    ensures Follows(es, TopLevel(loaded, es))
  {
    if es != [] {
      var front, e := es[..|es| - 1], es[|es| - 1];
      TopLevelFollows(loaded, front);
      TopLevelMembers(loaded, front);
      FollowsSnoc(front, TopLevel(loaded, front), e);
      SplitLast(es);
    }
  }

  lemma {:induction false} AllKidsMembers(loaded: set<string>, es: seq<Entry>, nodes: seq<string>)
    ensures forall e :: e in AllKids(loaded, es, nodes) <==> e in es && IsReply(loaded, e) && e.parentId.value in nodes
  {
    if nodes != [] {
      AllKidsMembers(loaded, es, nodes[..|nodes| - 1]);
      KidsMembers(loaded, es, nodes[|nodes| - 1]);
      SplitLast(nodes);
    }
  }

  /** A run of nodes contributes a prefix of what the longer run contributes. */
  lemma {:induction false} AllKidsPrefix(loaded: set<string>, es: seq<Entry>, nodes: seq<string>, k: nat)
    requires k <= |nodes|
    ensures AllKids(loaded, es, nodes[..k]) <= AllKids(loaded, es, nodes)
    decreases |nodes| - k
  {
    if k < |nodes| {
      AllKidsPrefix(loaded, es, nodes, k + 1);
      assert nodes[..k + 1][..k] == nodes[..k];
    } else {
      assert nodes[..k] == nodes;
    }
  }

  lemma NodesMembers(rootId: string, out: seq<Entry>)
    ensures rootId in Nodes(rootId, out)
    ensures forall e :: e in out ==> e.id in Nodes(rootId, out)
    ensures forall x :: x in Nodes(rootId, out) && x != rootId ==> x in IdSet(out)
  {
    var nodes := Nodes(rootId, out);
    assert nodes[0] == rootId;
    forall e | e in out
      ensures e.id in nodes
    {
      var k :| 0 <= k < |out| && out[k] == e;
      assert nodes[k + 1] == e.id;
    }
    forall x | x in nodes && x != rootId
      ensures x in IdSet(out)
    {
      var k :| 0 <= k < |nodes| && nodes[k] == x;
      assert out[k - 1] in out;
    }
  }

  /** A reply to a node not expanded yet is none of the replies found so far. */
  lemma KidIsNew(loaded: set<string>, es: seq<Entry>, from: seq<string>, kid: Entry)
    requires DistinctIds(es) && kid in es && IsReply(loaded, kid) && kid.parentId.value !in from
    ensures kid.id !in IdSet(AllKids(loaded, es, from))
  {
    AllKidsMembers(loaded, es, from);
    forall e | e in AllKids(loaded, es, from)
      ensures e.id != kid.id
    {
      if e.id == kid.id {
        SameIdSameEntry(es, e, kid);
      }
    }
  }

  lemma ExpandKeepsDistinct(loaded: set<string>, es: seq<Entry>, root: Entry, out: seq<Entry>, done: nat)
    requires DistinctIds(es) && root in es && !IsReply(loaded, root)
    requires done <= |out| && NoDuplicates(Nodes(root.id, out))
    requires out == AllKids(loaded, es, Nodes(root.id, out)[..done])
    ensures NoDuplicates(Nodes(root.id, out + Kids(loaded, es, Nodes(root.id, out)[done])))
  {
    var nodes := Nodes(root.id, out);
    var kids := Kids(loaded, es, nodes[done]);
    assert nodes[done] !in nodes[..done];
    KidsMembers(loaded, es, nodes[done]);
    NodesConcat(root.id, out, kids);
    NodesMembers(root.id, out);
    forall k | 0 <= k < |kids|
      ensures Ids(kids)[k] !in nodes
    {
      assert kids[k] in kids;
      KidIsNew(loaded, es, nodes[..done], kids[k]);
      if kids[k].id == root.id {
        SameIdSameEntry(es, kids[k], root);
      }
    }
    NoDuplicatesConcat(nodes, Ids(kids));
  }

  lemma ExpandKeepsParentsFirst(loaded: set<string>, es: seq<Entry>, rootId: string, out: seq<Entry>, done: nat)
    requires done <= |out| && ParentsFirst(rootId, out)
    ensures ParentsFirst(rootId, out + Kids(loaded, es, Nodes(rootId, out)[done]))
  {
    var pid := Nodes(rootId, out)[done];
    var kids := Kids(loaded, es, pid);
    KidsMembers(loaded, es, pid);
    var out' := out + kids;
    forall i: nat | i < |out'|
      ensures ParentBefore(rootId, out', i)
    {
      if i < |out| {
        assert ParentBefore(rootId, out, i);
        assert out'[..i] == out[..i];
      } else {
        assert out'[i] == kids[i - |out|] && kids[i - |out|] in kids;
        assert out'[..i] == out + kids[..i - |out|];
        assert Nodes(rootId, out'[..i])[done] == pid;
      }
    }
  }

  // ----- the search --------------------------------------------------------------

  function KidList(children: map<string, seq<Entry>>, p: string): seq<Entry> {
    if p in children then children[p] else []
  }

  /** Where the search stands after dequeuing `done` nodes. */
  ghost predicate Searched(loaded: set<string>, es: seq<Entry>, rootId: string, out: seq<Entry>, done: nat) {
    && done <= |out| + 1
    && out == AllKids(loaded, es, Nodes(rootId, out)[..done])
    && ParentsFirst(rootId, out)
    && NoDuplicates(Nodes(rootId, out))
  }

  lemma SearchStep(loaded: set<string>, es: seq<Entry>, root: Entry, out: seq<Entry>, done: nat)
    requires DistinctIds(es) && root in es && !IsReply(loaded, root)
    requires Searched(loaded, es, root.id, out, done) && done <= |out|
    ensures var kids := Kids(loaded, es, Nodes(root.id, out)[done]);
      && Searched(loaded, es, root.id, out + kids, done + 1)
      && Nodes(root.id, out + kids)[done + 1..] == Nodes(root.id, out)[done..][1..] + Ids(kids)
  {
    ExpandKeepsDistinct(loaded, es, root, out, done);
    ExpandKeepsParentsFirst(loaded, es, root.id, out, done);
    ExpandKeepsOutput(loaded, es, root.id, out, done);
  }

  lemma ExpandKeepsOutput(loaded: set<string>, es: seq<Entry>, rootId: string, out: seq<Entry>, done: nat)
    requires done <= |out| && out == AllKids(loaded, es, Nodes(rootId, out)[..done])
    ensures var kids := Kids(loaded, es, Nodes(rootId, out)[done]);
      && out + kids == AllKids(loaded, es, Nodes(rootId, out + kids)[..done + 1])
      && Nodes(rootId, out + kids)[done + 1..] == Nodes(rootId, out)[done..][1..] + Ids(kids)
  {
    var nodes := Nodes(rootId, out);
    var kids := Kids(loaded, es, nodes[done]);
    NodesConcat(rootId, out, kids);
    var upTo := Nodes(rootId, out + kids)[..done + 1];
    assert upTo[..done] == nodes[..done] && upTo[done] == nodes[done];
  }

  /** A search never finds more replies than there are entries. */
  lemma SearchIsBounded(loaded: set<string>, es: seq<Entry>, rootId: string, out: seq<Entry>, from: seq<string>)
    requires out == AllKids(loaded, es, from) && NoDuplicates(Nodes(rootId, out))
    ensures |out| <= |es|
  {
    AllKidsMembers(loaded, es, from);
    assert NoDuplicates(out) by {
      forall i, j | 0 <= i < j < |out|
        ensures out[i] != out[j]
      {
        assert Nodes(rootId, out)[i + 1] != Nodes(rootId, out)[j + 1];
      }
    }
    DistinctFit(out, es);
  }

  // ----- the search under distinct ids ---------------------------------------------

  lemma {:induction false} FoundIsSearched(loaded: set<string>, es: seq<Entry>, root: Entry, n: nat)
    requires DistinctIds(es) && root in es && !IsReply(loaded, root)
    requires n <= |Found(loaded, es, root.id, n)| + 1
    ensures Searched(loaded, es, root.id, Found(loaded, es, root.id, n), n)
  {
    if n > 0 {
      FoundIsSearched(loaded, es, root, n - 1);
      SearchStep(loaded, es, root, Found(loaded, es, root.id, n - 1), n - 1);
    } else {
      assert Nodes(root.id, [])[..0] == [];
    }
  }

  /** With distinct ids the search from a top-level comment ends. */
  lemma DistinctIdsEnd(loaded: set<string>, es: seq<Entry>, root: Entry)
    requires DistinctIds(es) && root in es && !IsReply(loaded, root)
    ensures NoReturn(loaded, es, root.id)
  {
    var n := |es| + 2;
    var out := Found(loaded, es, root.id, n);
    if n <= |out| {
      FoundIsSearched(loaded, es, root, n);
      SearchIsBounded(loaded, es, root.id, out, Nodes(root.id, out)[..n]);
    }
    assert EndedAt(loaded, es, root.id, n);
    SearchEndsExactlyWhenNoReturn(loaded, es, root.id);
  }

  /** With distinct ids the search finds the expansion. */
  lemma SearchIsExpansion(loaded: set<string>, es: seq<Entry>, root: Entry, out: seq<Entry>)
    requires DistinctIds(es) && root in es && !IsReply(loaded, root) && out == Found(loaded, es, root.id, |out| + 1)
    ensures IsExpansion(loaded, es, root.id, out)
  {
    FoundIsSearched(loaded, es, root, |out| + 1);
    assert Nodes(root.id, out)[..|out| + 1] == Nodes(root.id, out);
  }

  /** `row` is the top-level entry with what the search from it finds. */
  ghost predicate IsSearchedRow(loaded: set<string>, es: seq<Entry>, row: Row) {
    row.replies == if row.entry.kind.Comment? then Found(loaded, es, row.entry.id, |row.replies| + 1) else []
  }

  /** No search from a top-level comment meets a cycle. */
  ghost predicate SearchesEnd(es: seq<Entry>) {
    var loaded := CommentIds(es);
    forall e :: e in es && e.kind.Comment? && !IsReply(loaded, e) ==> NoReturn(loaded, es, e.id)
  }

  lemma DistinctSearchesEnd(es: seq<Entry>)
    requires DistinctIds(es)
    ensures SearchesEnd(es)
  {
    var loaded := CommentIds(es);
    forall e | e in es && e.kind.Comment? && !IsReply(loaded, e)
      ensures NoReturn(loaded, es, e.id)
    {
      DistinctIdsEnd(loaded, es, e);
    }
  }

  /** With distinct ids what is built are the rows. */
  lemma SearchedAreRows(es: seq<Entry>, rows: seq<Row>)
    requires DistinctIds(es) && |rows| == |TopLevel(CommentIds(es), es)|
    requires forall i :: 0 <= i < |rows| ==>
      rows[i].entry == TopLevel(CommentIds(es), es)[i] && IsSearchedRow(CommentIds(es), es, rows[i])
    ensures AreRows(es, rows)
  {
    var loaded := CommentIds(es);
    TopLevelMembers(loaded, es);
    forall i | 0 <= i < |rows|
      ensures IsRow(loaded, es, rows[i])
    {
      assert TopLevel(loaded, es)[i] in TopLevel(loaded, es);
      if rows[i].entry.kind.Comment? {
        SearchIsExpansion(loaded, es, rows[i].entry, rows[i].replies);
      }
    }
  }

  // ----- the methods ------------------------------------------------------------------

  /** The rows; without a cycle below a top-level comment, which distinct ids rule out, every search ends. */
  method BuildTimelineRows(entries: seq<Entry>) returns (rows: seq<Row>)
    requires SearchesEnd(entries)
    ensures |rows| == |TopLevel(CommentIds(entries), entries)|
    ensures forall i :: 0 <= i < |rows| ==>
      rows[i].entry == TopLevel(CommentIds(entries), entries)[i] && IsSearchedRow(CommentIds(entries), entries, rows[i])
    ensures forall e :: e in Entries(rows) <==> e in entries && !IsReply(CommentIds(entries), e)
    ensures Follows(entries, Entries(rows))
    ensures DistinctIds(entries) ==> AreRows(entries, rows)
  {
    var commentIds := LoadedComments(entries);
    var topLevel, children := Partition(entries, commentIds);
    rows := [];
    for i := 0 to |topLevel|
      invariant |rows| == i
      invariant forall j :: 0 <= j < i ==> rows[j].entry == topLevel[j] && IsSearchedRow(commentIds, entries, rows[j])
    {
      assert topLevel[i] in topLevel;
      var replies: seq<Entry> := [];
      if topLevel[i].kind.Comment? {
        replies := CollectDescendants(entries, commentIds, children, topLevel[i].id);
      }
      rows := rows + [Row(topLevel[i], replies)];
    }
    assert Entries(rows) == topLevel;
    if DistinctIds(entries) {
      SearchedAreRows(entries, rows);
    }
  }

  method LoadedComments(entries: seq<Entry>) returns (commentIds: set<string>)
    ensures commentIds == CommentIds(entries)
  {
    commentIds := {};
    for i := 0 to |entries|
      invariant commentIds == CommentIds(entries[..i])
    {
      assert entries[..i + 1] == entries[..i] + [entries[i]];
      if entries[i].kind.Comment? {
        commentIds := commentIds + {entries[i].id};
      }
    }
    assert entries[..|entries|] == entries;
  }

  method Partition(entries: seq<Entry>, commentIds: set<string>)
    returns (topLevel: seq<Entry>, children: map<string, seq<Entry>>)
    ensures topLevel == TopLevel(commentIds, entries)
    ensures forall p :: KidList(children, p) == Kids(commentIds, entries, p)
    ensures forall e :: e in topLevel <==> e in entries && !IsReply(commentIds, e)
    ensures Follows(entries, topLevel) && forall p :: Follows(entries, KidList(children, p))
  {
    topLevel, children := [], map[];
    for i := 0 to |entries|
      invariant topLevel == TopLevel(commentIds, entries[..i])
      invariant forall p :: KidList(children, p) == Kids(commentIds, entries[..i], p)
    {
      assert entries[..i + 1][..i] == entries[..i];
      var e := entries[i];
      if e.kind.Comment? && HasParent(e) && e.parentId.value in commentIds {
        children := children[e.parentId.value := KidList(children, e.parentId.value) + [e]];
      } else {
        topLevel := topLevel + [e];
      }
    }
    assert entries[..|entries|] == entries;
    TopLevelMembers(commentIds, entries);
    TopLevelFollows(commentIds, entries);
    forall p
      ensures Follows(entries, KidList(children, p))
    {
      KidsFollow(commentIds, entries, p);
    }
  }

  /** Breadth-first search; it stops exactly because no chain of replies from the root comes back to
      an id it has passed. */
  method CollectDescendants(ghost entries: seq<Entry>, ghost loaded: set<string>,
                            children: map<string, seq<Entry>>, rootId: string)
    returns (out: seq<Entry>)
    requires NoReturn(loaded, entries, rootId)
    requires forall p :: KidList(children, p) == Kids(loaded, entries, p)
    ensures out == Found(loaded, entries, rootId, |out| + 1)
  {
    out := [];
    var queue := [rootId];
    ghost var done: nat := 0;
    SearchEndsExactlyWhenNoReturn(loaded, entries, rootId);
    ghost var last: nat :| EndedAt(loaded, entries, rootId, last);
    while |queue| > 0
      invariant done <= |out| + 1 && out == Found(loaded, entries, rootId, done)
      invariant queue == Nodes(rootId, out)[done..]
      decreases last - done
    {
      if last <= done { FoundStays(loaded, entries, rootId, last, done); }
      var pid := queue[0];
      queue := queue[1..];
      var kids := KidList(children, pid);
      NextQueue(rootId, out, kids, done);
      out := out + kids;
      queue := queue + Ids(kids);
      done := done + 1;
    }
  }
}
