/** The query client's issue caches under optimistic mutations: what a mutation changes,
    what its error handler puts back, and what a delete leaves behind. */
module IssueCache {
  import opened Prelude
  import opened IssueBuckets

  // ----- snapshots ------------------------------------------------------------------

  function Lookup<V>(data: map<string, V>, k: string): Option<V> {
    if k in data then Some(data[k]) else None
  }

  /** The data under each key, in key order; a key whose query has no data yet gives `None`. */
  function Snapshot<V>(keys: seq<string>, data: map<string, V>): seq<(string, Option<V>)> {
    seq(|keys|, i requires 0 <= i < |keys| => (keys[i], Lookup(data, keys[i])))
  }

  /** Writing a snapshot back, entry by entry; writing no data is a no-op. */
  function PutBack<V>(data: map<string, V>, snap: seq<(string, Option<V>)>): map<string, V> {
    if |snap| == 0 then data else
      var (k, v) := snap[|snap| - 1];
      var before := PutBack(data, snap[..|snap| - 1]);
      if v.Some? then before[k := v.value] else before
  }

  ghost predicate SnapshotOf<V>(snap: seq<(string, Option<V>)>, data: map<string, V>) {
    forall p :: p in snap ==> p.1 == Lookup(data, p.0)
  }

  ghost predicate Covers<V>(snap: seq<(string, Option<V>)>, k: string) {
    exists p :: p in snap && p.0 == k
  }

  lemma {:induction false} PutBackLookup<V>(data: map<string, V>, next: map<string, V>,
                                            snap: seq<(string, Option<V>)>, k: string)
    requires SnapshotOf(snap, data)
    ensures Lookup(PutBack(next, snap), k) ==
      if Covers(snap, k) && k in data then Some(data[k]) else Lookup(next, k)
  {
    if |snap| > 0 {
      var n := |snap| - 1;
      var front, last := snap[..n], snap[n];
      assert SnapshotOf(front, data);
      PutBackLookup(data, next, front, k);
      SplitLast(snap);
      assert last in snap;
      assert Covers(snap, k) <==> Covers(front, k) || last.0 == k;
    }
  }

  /** Putting a snapshot back undoes every change made under the keys it covers. */
  lemma PutBackRestores<V>(data: map<string, V>, next: map<string, V>, snap: seq<(string, Option<V>)>)
    requires SnapshotOf(snap, data)
    requires forall k :: Lookup(next, k) != Lookup(data, k) ==> k in data && Covers(snap, k)
    ensures PutBack(next, snap) == data
  {
    var out := PutBack(next, snap);
    forall k
      ensures Lookup(out, k) == Lookup(data, k)
    {
      PutBackLookup(data, next, snap, k);
    }
    forall k
      ensures k in out <==> k in data
      ensures k in data ==> out[k] == data[k]
    {
      assert Lookup(out, k) == Lookup(data, k);
    }
  }

  lemma SnapshotCovers<V>(keys: seq<string>, data: map<string, V>)
    ensures SnapshotOf(Snapshot(keys, data), data)
    ensures forall k :: k in keys ==> Covers(Snapshot(keys, data), k)
  {
    var snap := Snapshot(keys, data);
    forall k | k in keys
      ensures Covers(snap, k)
    {
      var i :| 0 <= i < |keys| && keys[i] == k;
      assert snap[i] in snap && snap[i].0 == k;
    }
  }

  // ----- the caches as values ----------------------------------------------------------

  datatype State = State(
    lists: map<string, Buckets>,
    myLists: map<string, Buckets>,
    details: map<string, Issue>,
    children: map<string, seq<Issue>>)

  function PatchEach(lists: map<string, Buckets>, id: string, patch: Patch): map<string, Buckets> {
    map k | k in lists :: PatchIssueInBuckets(lists[k], id, patch)
  }

  function PruneEach(lists: map<string, Buckets>, id: string): map<string, Buckets> {
    map k | k in lists :: RemoveIssueFromBuckets(lists[k], id)
  }

  function AddEach(lists: map<string, Buckets>, issue: Issue): map<string, Buckets> {
    map k | k in lists :: AddIssueToBuckets(lists[k], issue)
  }

  function PatchChildren(issues: seq<Issue>, ids: set<string>, patch: Patch): seq<Issue> {
    seq(|issues|, i requires 0 <= i < |issues| => if issues[i].id in ids then Merge(issues[i], patch) else issues[i])
  }

  predicate HasAny(issues: seq<Issue>, ids: set<string>) {
    |issues| > 0 && (issues[0].id in ids || HasAny(issues[1..], ids))
  }

  function PatchDetail(details: map<string, Issue>, id: string, patch: Patch): map<string, Issue> {
    if id in details then details[id := Merge(details[id], patch)] else details
  }

  function PatchChildrenOf(children: map<string, seq<Issue>>, parent: Option<string>, id: string,
                           patch: Patch): map<string, seq<Issue>> {
    if Truthy(parent) && parent.value in children
    then children[parent.value := PatchChildren(children[parent.value], {id}, patch)] else children
  }

  function UpdateState(s: State, id: string, patch: Patch, parent: Option<string>): State {
    s.(lists := PatchEach(s.lists, id, patch),
       details := PatchDetail(s.details, id, patch),
       children := PatchChildrenOf(s.children, parent, id, patch))
  }

  /** Deleting reaches every children cache with a non-empty parent id. */
  function PruneChildren(children: map<string, seq<Issue>>, id: string): map<string, seq<Issue>> {
    map p | p in children :: if p == "" then children[p] else DropIssue(children[p], id)
  }

  function DeleteState(s: State, id: string): State {
    State(PruneEach(s.lists, id), PruneEach(s.myLists, id), s.details - {id}, PruneChildren(s.children, id))
  }

  // ----- mutation contexts ------------------------------------------------------------

  datatype UpdateContext = UpdateContext(
    prevLists: seq<(string, Option<Buckets>)>,
    prevDetail: Option<Issue>,
    prevChildren: Option<seq<Issue>>,
    parentId: Option<string>,
    id: string)

  datatype DeleteContext = DeleteContext(
    prevLists: seq<(string, Option<Buckets>)>,
    prevMyLists: seq<(string, Option<Buckets>)>,
    prevDetail: Option<Issue>,
    prevChildren: seq<(string, Option<seq<Issue>>)>,
    id: string)

  function UndoUpdate(s: State, ctx: UpdateContext): State {
    s.(lists := PutBack(s.lists, ctx.prevLists),
       details := if ctx.prevDetail.Some? then s.details[ctx.id := ctx.prevDetail.value] else s.details,
       children := if Truthy(ctx.parentId) && ctx.prevChildren.Some?
                   then s.children[ctx.parentId.value := ctx.prevChildren.value] else s.children)
  }

  function UndoDelete(s: State, ctx: DeleteContext): State {
    State(PutBack(s.lists, ctx.prevLists), PutBack(s.myLists, ctx.prevMyLists),
          if ctx.prevDetail.Some? then s.details[ctx.id := ctx.prevDetail.value] else s.details,
          PutBack(s.children, ctx.prevChildren))
  }

  function Members(ids: seq<string>): set<string> {
    set x | x in ids
  }

  // ----- batches --------------------------------------------------------------------------

  function PatchMany(b: Buckets, ids: seq<string>, patch: Patch): Buckets {
    if |ids| == 0 then b else PatchIssueInBuckets(PatchMany(b, ids[..|ids| - 1], patch), ids[|ids| - 1], patch)
  }

  function PatchManyEach(lists: map<string, Buckets>, ids: seq<string>, patch: Patch): map<string, Buckets> {
    map k | k in lists :: PatchMany(lists[k], ids, patch)
  }

  function PatchAllChildren(children: map<string, seq<Issue>>, ids: set<string>,
                            patch: Patch): map<string, seq<Issue>> {
    map p | p in children :: PatchChildren(children[p], ids, patch)
  }

  function BatchUpdateState(s: State, ids: seq<string>, patch: Patch): State {
    s.(lists := PatchManyEach(s.lists, ids, patch),
       children := PatchAllChildren(s.children, Members(ids), patch))
  }

  function PruneMany(s: State, ids: seq<string>): State {
    if |ids| == 0 then s else
      var before, id := PruneMany(s, ids[..|ids| - 1]), ids[|ids| - 1];
      before.(lists := PruneEach(before.lists, id), myLists := PruneEach(before.myLists, id),
              children := PruneChildren(before.children, id))
  }

  datatype BatchContext = BatchContext(
    prevLists: seq<(string, Option<Buckets>)>,
    prevMyLists: seq<(string, Option<Buckets>)>,
    prevChildren: seq<(string, Option<seq<Issue>>)>)

  function UndoBatch(s: State, ctx: BatchContext): State {
    s.(lists := PutBack(s.lists, ctx.prevLists), myLists := PutBack(s.myLists, ctx.prevMyLists),
       children := PutBack(s.children, ctx.prevChildren))
  }

  // ----- rolling back ----------------------------------------------------------------------

  /** A failed update puts back exactly what was cached, whichever parent it had picked. */
  lemma UpdateRollsBack(s: State, id: string, patch: Patch, ctx: UpdateContext)
    requires SnapshotOf(ctx.prevLists, s.lists) && forall k :: k in s.lists ==> Covers(ctx.prevLists, k)
    requires ctx.id == id && ctx.prevDetail == Lookup(s.details, id)
    requires ctx.prevChildren == if Truthy(ctx.parentId) then Lookup(s.children, ctx.parentId.value) else None
    ensures UndoUpdate(UpdateState(s, id, patch, ctx.parentId), ctx) == s
  {
    var next := UpdateState(s, id, patch, ctx.parentId);
    PutBackRestores(s.lists, next.lists, ctx.prevLists);
    assert UndoUpdate(next, ctx).details == s.details;
    assert UndoUpdate(next, ctx).children == s.children;
  }

  lemma {:induction false} DropNothing(issues: seq<Issue>, id: string)
    requires FindIssue(issues, id).None?
    ensures DropIssue(issues, id) == issues
  {
    if issues != [] {
      DropNothing(issues[1..], id);
    }
  }

  /** A failed delete puts everything back: the snapshots cover every cache that held the id. */
  lemma DeleteRollsBack(s: State, id: string, ctx: DeleteContext)
    requires SnapshotOf(ctx.prevLists, s.lists) && forall k :: k in s.lists ==> Covers(ctx.prevLists, k)
    requires SnapshotOf(ctx.prevMyLists, s.myLists) && forall k :: k in s.myLists ==> Covers(ctx.prevMyLists, k)
    requires ctx.id == id && ctx.prevDetail == Lookup(s.details, id)
    requires SnapshotOf(ctx.prevChildren, s.children)
    requires forall p :: p in s.children && p != "" && FindIssue(s.children[p], id).Some? ==>
      Covers(ctx.prevChildren, p)
    ensures UndoDelete(DeleteState(s, id), ctx) == s
  {
    var next := DeleteState(s, id);
    PutBackRestores(s.lists, next.lists, ctx.prevLists);
    PutBackRestores(s.myLists, next.myLists, ctx.prevMyLists);
    assert UndoDelete(next, ctx).details == s.details;
    forall p | Lookup(next.children, p) != Lookup(s.children, p)
      ensures p in s.children && Covers(ctx.prevChildren, p)
    {
      if p in s.children && p != "" && FindIssue(s.children[p], id).None? {
        DropNothing(s.children[p], id);
      }
    }
    PutBackRestores(s.children, next.children, ctx.prevChildren);
  }

  lemma {:induction false} PatchNothing(issues: seq<Issue>, ids: set<string>, patch: Patch)
    requires !HasAny(issues, ids)
    ensures PatchChildren(issues, ids, patch) == issues
  {
    if |issues| > 0 {
      PatchNothing(issues[1..], ids, patch);
      forall i | 0 <= i < |issues|
        ensures PatchChildren(issues, ids, patch)[i] == issues[i]
      {
        if i > 0 {
          assert PatchChildren(issues[1..], ids, patch)[i - 1] == issues[1..][i - 1] == issues[i];
        }
      }
    }
  }

  lemma BatchUpdateRollsBack(s: State, ids: seq<string>, patch: Patch, ctx: BatchContext)
    requires SnapshotOf(ctx.prevLists, s.lists) && forall k :: k in s.lists ==> Covers(ctx.prevLists, k)
    requires ctx.prevMyLists == [] && SnapshotOf(ctx.prevChildren, s.children)
    requires forall p :: p in s.children && HasAny(s.children[p], Members(ids)) ==> Covers(ctx.prevChildren, p)
    ensures UndoBatch(BatchUpdateState(s, ids, patch), ctx) == s
  {
    var next := BatchUpdateState(s, ids, patch);
    PutBackRestores(s.lists, next.lists, ctx.prevLists);
    forall p | Lookup(next.children, p) != Lookup(s.children, p)
      ensures p in s.children && Covers(ctx.prevChildren, p)
    {
      if p in s.children && !HasAny(s.children[p], Members(ids)) {
        PatchNothing(s.children[p], Members(ids), patch);
      }
    }
    PutBackRestores(s.children, next.children, ctx.prevChildren);
  }

  lemma {:induction false} PruneManyReach(s: State, ids: seq<string>)
    ensures var next := PruneMany(s, ids);
      && next.lists.Keys == s.lists.Keys && next.myLists.Keys == s.myLists.Keys && next.details == s.details
      && next.children.Keys == s.children.Keys
      && forall p :: p in s.children ==>
           || next.children[p] == s.children[p]
           || (p != "" && exists id :: id in ids && FindIssue(s.children[p], id).Some?)
  {
    if |ids| > 0 {
      var front, id := ids[..|ids| - 1], ids[|ids| - 1];
      PruneManyReach(s, front);
      var before := PruneMany(s, front);
      forall p | p in s.children && PruneMany(s, ids).children[p] != s.children[p]
        ensures p != "" && exists x :: x in ids && FindIssue(s.children[p], x).Some?
      {
        if before.children[p] == s.children[p] {
          assert p != "";
          if FindIssue(s.children[p], id).None? {
            DropNothing(s.children[p], id);
          }
          assert id in ids;
        } else {
          var x :| x in front && FindIssue(s.children[p], x).Some?;
          assert x in ids;
        }
      }
    }
  }

  lemma BatchDeleteRollsBack(s: State, ids: seq<string>, ctx: BatchContext)
    requires SnapshotOf(ctx.prevLists, s.lists) && forall k :: k in s.lists ==> Covers(ctx.prevLists, k)
    requires SnapshotOf(ctx.prevMyLists, s.myLists) && forall k :: k in s.myLists ==> Covers(ctx.prevMyLists, k)
    requires SnapshotOf(ctx.prevChildren, s.children)
    requires forall p, id :: p in s.children && p != "" && id in ids && FindIssue(s.children[p], id).Some? ==>
      Covers(ctx.prevChildren, p)
    ensures UndoBatch(PruneMany(s, ids), ctx) == s
  {
    var next := PruneMany(s, ids);
    PruneManyReach(s, ids);
    PutBackRestores(s.lists, next.lists, ctx.prevLists);
    PutBackRestores(s.myLists, next.myLists, ctx.prevMyLists);
    PutBackRestores(s.children, next.children, ctx.prevChildren);
  }
}
