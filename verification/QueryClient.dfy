/** The query client's handlers, step by step over the cached queries. */
module QueryClients {
  import opened Prelude
  import opened IssueBuckets
  import opened IssueCache

  // ----- loops over cached queries -------------------------------------------------

  method PatchLists(snap: seq<(string, Option<Buckets>)>, lists: map<string, Buckets>, id: string, patch: Patch)
    returns (out: map<string, Buckets>)
    requires SnapshotOf(snap, lists) && forall k :: k in lists ==> Covers(snap, k)
    ensures out == PatchEach(lists, id, patch)
  {
    out := lists;
    for i := 0 to |snap|
      invariant out.Keys == lists.Keys
      invariant forall k :: k in lists ==>
        out[k] == if Covers(snap[..i], k) then PatchIssueInBuckets(lists[k], id, patch) else lists[k]
    {
      var (key, cached) := snap[i];
      assert snap[i] in snap;
      CoversNext(snap, i);
      if cached.Some? {
        out := out[key := PatchIssueInBuckets(cached.value, id, patch)];
      }
    }
    assert snap[..|snap|] == snap;
  }

  lemma CoversNext<V>(snap: seq<(string, Option<V>)>, i: nat)
    requires i < |snap|
    ensures forall k :: Covers(snap[..i + 1], k) <==> Covers(snap[..i], k) || k == snap[i].0
  {
    assert snap[..i + 1] == snap[..i] + [snap[i]];
    forall k
      ensures Covers(snap[..i + 1], k) <==> Covers(snap[..i], k) || k == snap[i].0
    {
      if Covers(snap[..i], k) {
        var p :| p in snap[..i] && p.0 == k;
        assert p in snap[..i + 1];
      }
      assert snap[i] in snap[..i + 1];
    }
  }

  method PatchListsBatch(snap: seq<(string, Option<Buckets>)>, lists: map<string, Buckets>, ids: seq<string>,
                         patch: Patch)
    returns (out: map<string, Buckets>)
    requires SnapshotOf(snap, lists) && forall k :: k in lists ==> Covers(snap, k)
    ensures out == PatchManyEach(lists, ids, patch)
  {
    out := lists;
    for i := 0 to |snap|
      invariant out.Keys == lists.Keys
      invariant forall k :: k in lists ==>
        out[k] == if Covers(snap[..i], k) then PatchMany(lists[k], ids, patch) else lists[k]
    {
      var (key, cached) := snap[i];
      assert snap[i] in snap;
      CoversNext(snap, i);
      if cached.Some? {
        var next := cached.value;
        for j := 0 to |ids|
          invariant next == PatchMany(cached.value, ids[..j], patch)
        {
          assert ids[..j + 1][..j] == ids[..j];
          next := PatchIssueInBuckets(next, ids[j], patch);
        }
        assert ids[..|ids|] == ids;
        out := out[key := next];
      }
    }
    assert snap[..|snap|] == snap;
  }

  method PruneLists(keys: seq<string>, lists: map<string, Buckets>, id: string) returns (out: map<string, Buckets>)
    requires NoDuplicates(keys) && forall k :: k in lists ==> k in keys
    ensures out == PruneEach(lists, id)
  {
    out := lists;
    for i := 0 to |keys|
      invariant out.Keys == lists.Keys
      invariant forall k :: k in lists ==>
        out[k] == if k in keys[..i] then RemoveIssueFromBuckets(lists[k], id) else lists[k]
    {
      assert keys[..i + 1] == keys[..i] + [keys[i]];
      assert keys[i] !in keys[..i];
      if keys[i] in out {
        out := out[keys[i] := RemoveIssueFromBuckets(out[keys[i]], id)];
      }
    }
    assert keys[..|keys|] == keys;
  }

  method AddToLists(keys: seq<string>, lists: map<string, Buckets>, issue: Issue) returns (out: map<string, Buckets>)
    requires NoDuplicates(keys) && forall k :: k in lists ==> k in keys
    ensures out == AddEach(lists, issue)
  {
    out := lists;
    for i := 0 to |keys|
      invariant out.Keys == lists.Keys
      invariant forall k :: k in lists ==>
        out[k] == if k in keys[..i] then AddIssueToBuckets(lists[k], issue) else lists[k]
    {
      assert keys[..i + 1] == keys[..i] + [keys[i]];
      assert keys[i] !in keys[..i];
      if keys[i] in out {
        out := out[keys[i] := AddIssueToBuckets(out[keys[i]], issue)];
      }
    }
    assert keys[..|keys|] == keys;
  }

  /** Patches one children cache if it holds any of the ids, remembering what it held before. */
  method PatchOne(p: string, children: map<string, seq<Issue>>, was: map<string, seq<Issue>>,
                  seen: seq<(string, Option<seq<Issue>>)>, ids: set<string>, patch: Patch)
    returns (out: map<string, seq<Issue>>, snap: seq<(string, Option<seq<Issue>>)>)
    requires SnapshotOf(seen, children) && was.Keys == children.Keys && (p in children ==> was[p] == children[p])
    ensures out == if p in children then was[p := PatchChildren(children[p], ids, patch)] else was
    ensures SnapshotOf(snap, children)
    ensures forall k :: Covers(seen, k) ==> Covers(snap, k)
    ensures p in children && HasAny(children[p], ids) ==> Covers(snap, p)
  {
    out, snap := was, seen;
    if p in children {
      if HasAny(children[p], ids) {
        AppendCovers(seen, (p, Some(children[p])));
        snap := seen + [(p, Some(children[p]))];
        out := was[p := PatchChildren(children[p], ids, patch)];
      } else {
        PatchNothing(children[p], ids, patch);
        assert was[p := children[p]] == was;
      }
    }
  }

  method PatchChildrenBatch(keys: seq<string>, children: map<string, seq<Issue>>, ids: set<string>, patch: Patch)
    returns (out: map<string, seq<Issue>>, snap: seq<(string, Option<seq<Issue>>)>)
    requires NoDuplicates(keys) && forall p :: p in children ==> p in keys
    ensures out == PatchAllChildren(children, ids, patch)
    ensures SnapshotOf(snap, children)
    ensures forall p :: p in children && HasAny(children[p], ids) ==> Covers(snap, p)
  {
    out, snap := children, [];
    for i := 0 to |keys|
      invariant out.Keys == children.Keys
      invariant forall p :: p in children ==>
        out[p] == if p in keys[..i] then PatchChildren(children[p], ids, patch) else children[p]
      invariant SnapshotOf(snap, children)
      invariant forall p :: p in keys[..i] && p in children && HasAny(children[p], ids) ==> Covers(snap, p)
    {
      assert keys[..i + 1] == keys[..i] + [keys[i]] && keys[i] !in keys[..i];
      out, snap := PatchOne(keys[i], children, out, snap, ids, patch);
    }
    assert keys[..|keys|] == keys;
  }

  lemma AppendCovers<V>(snap: seq<(string, Option<V>)>, p: (string, Option<V>))
    ensures forall k :: Covers(snap + [p], k) <==> Covers(snap, k) || k == p.0
  {
    CoversNext(snap + [p], |snap|);
    assert (snap + [p])[..|snap|] == snap && (snap + [p])[..|snap| + 1] == snap + [p];
  }

  method RestoreAll<V>(data: map<string, V>, snap: seq<(string, Option<V>)>) returns (out: map<string, V>)
    ensures out == PutBack(data, snap)
  {
    out := data;
    for i := 0 to |snap|
      invariant out == PutBack(data, snap[..i])
    {
      assert snap[..i + 1][..i] == snap[..i];
      if snap[i].1.Some? {
        out := out[snap[i].0 := snap[i].1.value];
      }
    }
    assert snap[..|snap|] == snap;
  }

  // ----- the parents a delete touches -------------------------------------------------

  /** The non-empty parent that the located issue carries. */
  function ParentInList(b: Buckets, id: string): Option<string> {
    match FindIssueLocation(b, id) case None => None case Some(loc) => loc.issue.parentIssueId
  }

  ghost function ParentsInLists(lists: map<string, Buckets>, id: string): set<string> {
    set k | k in lists && Truthy(ParentInList(lists[k], id)) :: ParentInList(lists[k], id).value
  }

  function ParentInChildren(issues: seq<Issue>, id: string): Option<string> {
    match FindIssue(issues, id) case None => None case Some(i) => i.parentIssueId
  }

  ghost function ParentsInChildren(children: map<string, seq<Issue>>, id: string): set<string> {
    (set k | k in children && Truthy(ParentInChildren(children[k], id)) :: ParentInChildren(children[k], id).value)
    + (set k | k in children && k != "" && FindIssue(children[k], id).Some?)
  }

  ghost function DeletedParents(s: State, id: string): set<string> {
    (if id in s.details && Truthy(s.details[id].parentIssueId) then {s.details[id].parentIssueId.value} else {})
    + ParentsInLists(s.lists, id) + ParentsInLists(s.myLists, id) + ParentsInChildren(s.children, id)
  }

  method CollectFromLists(keys: seq<string>, lists: map<string, Buckets>, id: string) returns (parents: set<string>)
    requires forall k :: k in lists ==> k in keys
    ensures parents == ParentsInLists(lists, id)
  {
    parents := {};
    for i := 0 to |keys|
      invariant parents ==
        set k | k in lists && k in keys[..i] && Truthy(ParentInList(lists[k], id)) :: ParentInList(lists[k], id).value
    {
      assert keys[..i + 1] == keys[..i] + [keys[i]];
      if keys[i] in lists && Truthy(ParentInList(lists[keys[i]], id)) {
        parents := parents + {ParentInList(lists[keys[i]], id).value};
      }
    }
    assert keys[..|keys|] == keys;
  }

  method CollectFromChildren(keys: seq<string>, children: map<string, seq<Issue>>, id: string)
    returns (parents: set<string>)
    requires forall k :: k in children ==> k in keys
    ensures parents == ParentsInChildren(children, id)
  {
    var named: set<string> := {};
    var keyed: set<string> := {};
    for i := 0 to |keys|
      invariant named ==
        set k | k in children && k in keys[..i] && Truthy(ParentInChildren(children[k], id)) ::
          ParentInChildren(children[k], id).value
      invariant keyed == set k | k in children && k in keys[..i] && k != "" && FindIssue(children[k], id).Some?
    {
      var key := keys[i];
      assert keys[..i + 1] == keys[..i] + [key];
      if key in children && FindIssue(children[key], id).Some? {
        var parent := ParentInChildren(children[key], id);
        if Truthy(parent) { named := named + {parent.value}; }
        if key != "" { keyed := keyed + {key}; }
      }
    }
    assert keys[..|keys|] == keys;
    parents := named + keyed;
  }

  /** Drop the id from the children caches of `parents`. */
  function PruneAt(children: map<string, seq<Issue>>, parents: set<string>, id: string): map<string, seq<Issue>> {
    map p | p in children :: if p in parents then DropIssue(children[p], id) else children[p]
  }

  method PruneParents(children: map<string, seq<Issue>>, parents: set<string>, id: string)
    returns (out: map<string, seq<Issue>>)
    ensures out == PruneAt(children, parents, id)
  {
    out := children;
    var todo := parents;
    while todo != {}
      invariant todo <= parents && out.Keys == children.Keys
      invariant forall p :: p in children ==>
        out[p] == if p in parents - todo then DropIssue(children[p], id) else children[p]
      decreases todo
    {
      var p :| p in todo;
      if p in out {
        out := out[p := DropIssue(out[p], id)];
      }
      todo := todo - {p};
    }
  }

  method SnapshotParents(children: map<string, seq<Issue>>, parents: set<string>)
    returns (snap: seq<(string, Option<seq<Issue>>)>)
    ensures SnapshotOf(snap, children)
    ensures forall p :: p in parents <==> Covers(snap, p)
  {
    snap := [];
    var todo := parents;
    while todo != {}
      invariant todo <= parents
      invariant SnapshotOf(snap, children)
      invariant forall p :: p in parents - todo <==> Covers(snap, p)
      decreases todo
    {
      var p :| p in todo;
      var snap' := snap + [(p, Lookup(children, p))];
      AppendCovers(snap, (p, Lookup(children, p)));
      forall q
        ensures q in parents - (todo - {p}) <==> Covers(snap', q)
      {
        assert Covers(snap', q) <==> Covers(snap, q) || q == p;
      }
      snap := snap';
      todo := todo - {p};
    }
  }

  // ----- the parent an update touches ---------------------------------------------------

  function FirstHolding(keys: seq<string>, children: map<string, seq<Issue>>, id: string): Option<string> {
    if |keys| == 0 then None
    else if keys[0] in children && FindIssue(children[keys[0]], id).Some? then Some(keys[0])
    else FirstHolding(keys[1..], children, id)
  }

  function KnownParent(details: map<string, Issue>, firstList: Option<Buckets>, id: string): Option<string> {
    var detail := if id in details then details[id].parentIssueId else None;
    if detail.Some? then detail
    else if firstList.Some? then ParentInList(firstList.value, id) else None
  }

  /** The parent read from the detail, else from the first list, else from the children caches. */
  function UpdatedParent(s: State, firstList: Option<Buckets>, childKeys: seq<string>, id: string): Option<string> {
    var known := KnownParent(s.details, firstList, id);
    if Truthy(known) then known
    else
      var holding := FirstHolding(childKeys, s.children, id);
      if holding.Some? then holding else known
  }

  // ----- what server events do ---------------------------------------------------------

  function CreatedState(s: State, issue: Issue): State {
    s.(lists := AddEach(s.lists, issue))
  }

  function UpdatedState(s: State, firstList: Option<Buckets>, id: string, patch: Patch): State {
    var oldParent := KnownParent(s.details, firstList, id);
    var parentChanged := patch.parentIssueId.Some? && patch.parentIssueId.value != oldParent;
    UpdateState(s, id, patch, if parentChanged then None else oldParent)
  }

  function LabelPatch(labels: seq<string>): Patch {
    Patch(None, None, None, None, None, Some(labels))
  }

  function LabelledState(s: State, id: string, labels: seq<string>): State {
    UpdateState(s, id, LabelPatch(labels), None)
  }

  function RemovedState(s: State, id: string): State {
    var pruned := DeleteState(s, id);
    pruned.(children := pruned.children - {id})
  }

  // ----- the client -----------------------------------------------------------------------

  class QueryClient {
    var listKeys: seq<string>
    var lists: map<string, Buckets>
    var myKeys: seq<string>
    var myLists: map<string, Buckets>
    var details: map<string, Issue>
    var childKeys: seq<string>
    var children: map<string, seq<Issue>>

    /** Every query with data is registered, once, under its prefix. */
    ghost predicate Valid()
      reads this
    {
      && NoDuplicates(listKeys) && (forall k :: k in lists ==> k in listKeys)
      && NoDuplicates(myKeys) && (forall k :: k in myLists ==> k in myKeys)
      && NoDuplicates(childKeys) && (forall k :: k in children ==> k in childKeys)
    }

    ghost function Model(): State
      reads this
    {
      State(lists, myLists, details, children)
    }

    method FirstParentHolding(id: string) returns (r: Option<string>)
      ensures r == FirstHolding(childKeys, children, id)
    {
      for i := 0 to |childKeys|
        invariant FirstHolding(childKeys, children, id) == FirstHolding(childKeys[i..], children, id)
      {
        if childKeys[i] in children && FindIssue(children[childKeys[i]], id).Some? {
          return Some(childKeys[i]);
        }
      }
      return None;
    }

    method ParentForUpdate(prevDetail: Option<Issue>, firstList: Option<Buckets>, id: string)
      returns (parentId: Option<string>)
      requires prevDetail == Lookup(details, id)
      ensures parentId == UpdatedParent(Model(), firstList, childKeys, id)
    {
      parentId := if prevDetail.Some? then prevDetail.value.parentIssueId else None;
      if parentId.None? && firstList.Some? {
        parentId := ParentInList(firstList.value, id);
      }
      if !Truthy(parentId) {
        var holding := FirstParentHolding(id);
        if holding.Some? { parentId := holding; }
      }
    }

    method OnMutateUpdate(id: string, patch: Patch) returns (ctx: UpdateContext)
      requires Valid()
      modifies this`lists, this`details, this`children
      ensures Valid()
      ensures ctx.prevLists == Snapshot(listKeys, old(lists))
      ensures ctx.prevDetail == Lookup(old(details), id) && ctx.id == id
      ensures ctx.parentId ==
        UpdatedParent(old(Model()), if |listKeys| > 0 then Lookup(old(lists), listKeys[0]) else None, childKeys, id)
      ensures ctx.prevChildren == if Truthy(ctx.parentId) then Lookup(old(children), ctx.parentId.value) else None
      ensures Model() == UpdateState(old(Model()), id, patch, ctx.parentId)
    {
      var prevLists := Snapshot(listKeys, lists);
      var prevDetail := Lookup(details, id);
      var parentId := ParentForUpdate(prevDetail, if |listKeys| > 0 then Lookup(lists, listKeys[0]) else None, id);
      var prevChildren := if Truthy(parentId) then Lookup(children, parentId.value) else None;
      SnapshotCovers(listKeys, lists);
      lists := PatchLists(prevLists, lists, id, patch);
      if id in details {
        details := details[id := Merge(details[id], patch)];
      }
      if Truthy(parentId) && parentId.value in children {
        children := children[parentId.value := PatchChildren(children[parentId.value], {id}, patch)];
      }
      ctx := UpdateContext(prevLists, prevDetail, prevChildren, parentId, id);
    }

    method OnErrorUpdate(ctx: UpdateContext)
      modifies this`lists, this`details, this`children
      ensures Model() == UndoUpdate(old(Model()), ctx)
    {
      lists := RestoreAll(lists, ctx.prevLists);
      if ctx.prevDetail.Some? {
        details := details[ctx.id := ctx.prevDetail.value];
      }
      if Truthy(ctx.parentId) && ctx.prevChildren.Some? {
        children := children[ctx.parentId.value := ctx.prevChildren.value];
      }
    }

    method CollectDeletedIssueCacheMetadata(id: string) returns (parents: set<string>)
      requires Valid()
      ensures parents == DeletedParents(Model(), id)
    {
      parents := {};
      if id in details && Truthy(details[id].parentIssueId) {
        parents := {details[id].parentIssueId.value};
      }
      var inLists := CollectFromLists(listKeys, lists, id);
      var inMyLists := CollectFromLists(myKeys, myLists, id);
      var inChildren := CollectFromChildren(childKeys, children, id);
      parents := parents + inLists + inMyLists + inChildren;
    }

    method PruneDeletedIssue(id: string, parents: set<string>)
      requires Valid()
      modifies this`lists, this`myLists, this`children
      ensures Valid()
      ensures lists == PruneEach(old(lists), id) && myLists == PruneEach(old(myLists), id)
      ensures children == PruneAt(old(children), parents, id)
    {
      lists := PruneLists(listKeys, lists, id);
      myLists := PruneLists(myKeys, myLists, id);
      children := PruneParents(children, parents, id);
    }

    method OnMutateDelete(id: string) returns (ctx: DeleteContext)
      requires Valid()
      modifies this`lists, this`myLists, this`children, this`details
      ensures Valid()
      ensures ctx.prevLists == Snapshot(listKeys, old(lists)) && ctx.prevMyLists == Snapshot(myKeys, old(myLists))
      ensures ctx.prevDetail == Lookup(old(details), id) && ctx.id == id
      ensures SnapshotOf(ctx.prevChildren, old(children))
      ensures forall p :: p in DeletedParents(old(Model()), id) <==> Covers(ctx.prevChildren, p)
      ensures Model() == DeleteState(old(Model()), id)
    {
      var parents := CollectDeletedIssueCacheMetadata(id);
      var prevLists, prevMyLists := Snapshot(listKeys, lists), Snapshot(myKeys, myLists);
      var prevDetail := Lookup(details, id);
      var prevChildren := SnapshotParents(children, parents);
      PruneReachesAll(Model(), id);
      PruneDeletedIssue(id, parents);
      details := details - {id};
      ctx := DeleteContext(prevLists, prevMyLists, prevDetail, prevChildren, id);
    }

    method OnErrorDelete(ctx: DeleteContext)
      modifies this`lists, this`myLists, this`children, this`details
      ensures Model() == UndoDelete(old(Model()), ctx)
    {
      lists := RestoreAll(lists, ctx.prevLists);
      myLists := RestoreAll(myLists, ctx.prevMyLists);
      if ctx.prevDetail.Some? {
        details := details[ctx.id := ctx.prevDetail.value];
      }
      children := RestoreAll(children, ctx.prevChildren);
    }

    // ----- batches ------------------------------------------------------------------------

    method OnMutateBatchUpdate(ids: seq<string>, patch: Patch) returns (ctx: BatchContext)
      requires Valid()
      modifies this`lists, this`children
      ensures Valid()
      ensures ctx.prevLists == Snapshot(listKeys, old(lists)) && ctx.prevMyLists == []
      ensures SnapshotOf(ctx.prevChildren, old(children))
      ensures forall p :: p in old(children) && HasAny(old(children)[p], Members(ids)) ==> Covers(ctx.prevChildren, p)
      ensures Model() == BatchUpdateState(old(Model()), ids, patch)
    {
      var prevLists := Snapshot(listKeys, lists);
      SnapshotCovers(listKeys, lists);
      lists := PatchListsBatch(prevLists, lists, ids, patch);
      var prevChildren;
      children, prevChildren := PatchChildrenBatch(childKeys, children, Members(ids), patch);
      ctx := BatchContext(prevLists, [], prevChildren);
    }

    method CollectBatchMetadata(ids: seq<string>) returns (metadata: seq<set<string>>, parents: set<string>)
      requires Valid()
      ensures |metadata| == |ids|
      ensures forall j :: 0 <= j < |ids| ==> metadata[j] == DeletedParents(Model(), ids[j]) && metadata[j] <= parents
    {
      metadata, parents := [], {};
      ghost var s := Model();
      for i := 0 to |ids|
        invariant |metadata| == i
        invariant forall j :: 0 <= j < i ==> metadata[j] == DeletedParents(s, ids[j]) && metadata[j] <= parents
      {
        var found := CollectDeletedIssueCacheMetadata(ids[i]);
        metadata := metadata + [found];
        parents := parents + found;
      }
    }

    method PruneDeletedIssues(ids: seq<string>, metadata: seq<set<string>>)
      requires Valid() && |metadata| == |ids|
      requires forall j :: 0 <= j < |ids| ==> metadata[j] == DeletedParents(Model(), ids[j])
      modifies this`lists, this`myLists, this`children
      ensures Valid()
      ensures Model() == PruneMany(old(Model()), ids)
    {
      for i := 0 to |ids|
        invariant Valid()
        invariant Model() == PruneMany(old(Model()), ids[..i])
      {
        PruneReachesAllLater(old(Model()), Model(), ids[..i], ids[i]);
        assert ids[..i + 1][..i] == ids[..i];
        PruneDeletedIssue(ids[i], metadata[i]);
      }
      assert ids[..|ids|] == ids;
    }

    method OnMutateBatchDelete(ids: seq<string>) returns (ctx: BatchContext)
      requires Valid()
      modifies this`lists, this`myLists, this`children
      ensures Valid()
      ensures ctx.prevLists == Snapshot(listKeys, old(lists)) && ctx.prevMyLists == Snapshot(myKeys, old(myLists))
      ensures SnapshotOf(ctx.prevChildren, old(children))
      ensures forall p, id :: id in ids && p in DeletedParents(old(Model()), id) ==> Covers(ctx.prevChildren, p)
      ensures Model() == PruneMany(old(Model()), ids)
    {
      var metadata, parents := CollectBatchMetadata(ids);
      var prevLists, prevMyLists := Snapshot(listKeys, lists), Snapshot(myKeys, myLists);
      var prevChildren := SnapshotParents(children, parents);
      ctx := BatchContext(prevLists, prevMyLists, prevChildren);
      PruneDeletedIssues(ids, metadata);
    }

    method OnErrorBatch(ctx: BatchContext)
      modifies this`lists, this`myLists, this`children
      ensures Model() == UndoBatch(old(Model()), ctx)
    {
      lists := RestoreAll(lists, ctx.prevLists);
      myLists := RestoreAll(myLists, ctx.prevMyLists);
      children := RestoreAll(children, ctx.prevChildren);
    }

    // ----- mutations that fail ---------------------------------------------------------------

    method FailedUpdate(id: string, patch: Patch)
      requires Valid()
      modifies this`lists, this`details, this`children
      ensures Model() == old(Model())
    {
      var ctx := OnMutateUpdate(id, patch);
      SnapshotCovers(listKeys, old(lists));
      UpdateRollsBack(old(Model()), id, patch, ctx);
      OnErrorUpdate(ctx);
    }

    method FailedDelete(id: string)
      requires Valid()
      modifies this`lists, this`myLists, this`children, this`details
      ensures Model() == old(Model())
    {
      ParentsInChildrenFacts(children, id);
      var ctx := OnMutateDelete(id);
      SnapshotCovers(listKeys, old(lists));
      SnapshotCovers(myKeys, old(myLists));
      DeleteRollsBack(old(Model()), id, ctx);
      OnErrorDelete(ctx);
    }

    method FailedBatchUpdate(ids: seq<string>, patch: Patch)
      requires Valid()
      modifies this`lists, this`myLists, this`children
      ensures Model() == old(Model())
    {
      var ctx := OnMutateBatchUpdate(ids, patch);
      SnapshotCovers(listKeys, old(lists));
      BatchUpdateRollsBack(old(Model()), ids, patch, ctx);
      OnErrorBatch(ctx);
    }

    method FailedBatchDelete(ids: seq<string>)
      requires Valid()
      modifies this`lists, this`myLists, this`children
      ensures Model() == old(Model())
    {
      forall id { ParentsInChildrenFacts(children, id); }
      var ctx := OnMutateBatchDelete(ids);
      SnapshotCovers(listKeys, old(lists));
      SnapshotCovers(myKeys, old(myLists));
      BatchDeleteRollsBack(old(Model()), ids, ctx);
      OnErrorBatch(ctx);
    }

    // ----- server events ---------------------------------------------------------------------

    method OnIssueCreated(issue: Issue)
      requires Valid()
      modifies this`lists
      ensures Valid()
      ensures Model() == CreatedState(old(Model()), issue)
    {
      lists := AddToLists(listKeys, lists, issue);
    }

    method OnIssueUpdated(id: string, patch: Patch)
      requires Valid()
      modifies this`lists, this`details, this`children
      ensures Valid()
      ensures Model() ==
        UpdatedState(old(Model()), if |listKeys| > 0 then Lookup(old(lists), listKeys[0]) else None, id, patch)
    {
      var snap := Snapshot(listKeys, lists);
      var firstList := if |listKeys| > 0 then Lookup(lists, listKeys[0]) else None;
      var oldParent := KnownParent(details, firstList, id);
      var parentChanged := patch.parentIssueId.Some? && patch.parentIssueId.value != oldParent;
      SnapshotCovers(listKeys, lists);
      lists := PatchLists(snap, lists, id, patch);
      if id in details {
        details := details[id := Merge(details[id], patch)];
      }
      if Truthy(oldParent) && !parentChanged && oldParent.value in children {
        children := children[oldParent.value := PatchChildren(children[oldParent.value], {id}, patch)];
      }
    }

    method OnIssueLabelsChanged(id: string, labels: seq<string>)
      requires Valid()
      modifies this`lists, this`details
      ensures Valid()
      ensures Model() == LabelledState(old(Model()), id, labels)
    {
      var snap := Snapshot(listKeys, lists);
      SnapshotCovers(listKeys, lists);
      lists := PatchLists(snap, lists, id, LabelPatch(labels));
      if id in details {
        details := details[id := Merge(details[id], LabelPatch(labels))];
      }
    }

    method OnIssueDeleted(id: string)
      requires Valid()
      modifies this`lists, this`myLists, this`children, this`details
      ensures Valid()
      ensures Model() == RemovedState(old(Model()), id)
    {
      var parents := CollectDeletedIssueCacheMetadata(id);
      PruneReachesAll(Model(), id);
      PruneDeletedIssue(id, parents);
      details := details - {id};
      children := children - {id};
    }
  }

  lemma ParentsInChildrenFacts(children: map<string, seq<Issue>>, id: string)
    ensures "" !in ParentsInChildren(children, id)
    ensures forall p :: p in children && p != "" && FindIssue(children[p], id).Some? ==>
      p in ParentsInChildren(children, id)
  {
  }

  lemma EmptyIsNoParent(s: State, id: string)
    ensures "" !in DeletedParents(s, id)
  {
    ParentsInChildrenFacts(s.children, id);
    assert "" !in ParentsInLists(s.lists, id) && "" !in ParentsInLists(s.myLists, id);
  }

  /** Collected before the batch, the parents are still enough after part of it. */
  lemma PruneReachesAllLater(s: State, later: State, ids: seq<string>, id: string)
    requires later == PruneMany(s, ids)
    ensures PruneAt(later.children, DeletedParents(s, id), id) == PruneChildren(later.children, id)
  {
    EmptyIsNoParent(s, id);
    var parents := DeletedParents(s, id);
    PruneManyReach(s, ids);
    forall p | p in later.children && p != "" && p !in parents
      ensures DropIssue(later.children[p], id) == later.children[p]
    {
      ParentsInChildrenFacts(s.children, id);
      PruneManyAdds(s, ids, p, id);
      DropNothing(later.children[p], id);
    }
  }

  /** Pruning never brings an id into a children cache. */
  lemma {:induction false} PruneManyAdds(s: State, ids: seq<string>, p: string, id: string)
    requires p in s.children && FindIssue(s.children[p], id).None?
    ensures p in PruneMany(s, ids).children && FindIssue(PruneMany(s, ids).children[p], id).None?
  {
    if |ids| > 0 {
      PruneManyAdds(s, ids[..|ids| - 1], p, id);
      DropKeepsAbsent(PruneMany(s, ids[..|ids| - 1]).children[p], ids[|ids| - 1], id);
    }
  }

  lemma {:induction false} DropKeepsAbsent(issues: seq<Issue>, gone: string, id: string)
    requires FindIssue(issues, id).None?
    ensures FindIssue(DropIssue(issues, gone), id).None?
  {
    if issues != [] {
      DropKeepsAbsent(issues[1..], gone, id);
      var rest := DropIssue(issues[1..], gone);
      assert ([issues[0]] + rest)[1..] == rest && [] + rest == rest;
    }
  }

  /** The collected parents are enough: every children cache under a non-empty key is rid of the id. */
  lemma PruneReachesAll(s: State, id: string)
    ensures PruneAt(s.children, DeletedParents(s, id), id) == PruneChildren(s.children, id)
  {
    EmptyIsNoParent(s, id);
    var parents := DeletedParents(s, id);
    forall p | p in s.children && p != "" && p !in parents
      ensures DropIssue(s.children[p], id) == s.children[p]
    {
      ParentsInChildrenFacts(s.children, id);
      DropNothing(s.children[p], id);
    }
  }
}
