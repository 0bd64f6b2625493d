/** What a delete leaves in every cache, and what a run of server events makes of each cached list. */
module CacheTheorems {
  import opened Prelude
  import opened IssueBuckets
  import opened BucketTheorems
  import opened IssueCache
  import opened QueryClients

  // ----- deletes ---------------------------------------------------------------------

  ghost predicate AllWellFormed(lists: map<string, Buckets>) {
    forall k :: k in lists ==> WellFormed(lists[k])
  }

  /** Removing an id filters every visible bucket, keeping the order of the rest. */
  lemma RemoveFiltersBuckets(c: Buckets, id: string, s: Status)
    requires WellFormed(c) && Visible(s)
    ensures GetBucket(RemoveIssueFromBuckets(c, id), s).issues == DropIssue(GetBucket(c, s).issues, id)
  {
    LocationIsInView(c, id);
    ShownIsFound(c, s, id);
    if FindIssue(GetBucket(c, s).issues, id).None? {
      DropNothing(GetBucket(c, s).issues, id);
    }
  }

  /** `after` are the lists of `before`, in each of which exactly `gone` is no longer shown. */
  ghost predicate ShowsRest(before: map<string, Buckets>, after: map<string, Buckets>, gone: set<string>) {
    && after.Keys == before.Keys
    && forall k :: k in before ==>
      WellFormed(after[k]) && View(after[k]) == View(before[k]) - gone && BucketsKeepRest(before[k], after[k], gone)
  }

  /** In every children cache with a non-empty parent exactly `gone` is missing; the rest keeps its order. */
  ghost predicate KeepsRest(before: map<string, seq<Issue>>, after: map<string, seq<Issue>>, gone: set<string>) {
    && after.Keys == before.Keys
    && forall p :: p in before && p != "" ==> after[p] == Rest(before[p], gone)
  }

  lemma {:induction false} RestTwice(issues: seq<Issue>, gone: set<string>, more: set<string>)
    ensures Rest(Rest(issues, gone), more) == Rest(issues, gone + more)
  {
    if issues != [] {
      RestTwice(issues[1..], gone, more);
      var kept := Rest(issues[1..], gone);
      assert ([issues[0]] + kept)[1..] == kept;
    }
  }

  lemma {:induction false} RestOfNone(issues: seq<Issue>)
    ensures Rest(issues, {}) == issues
  {
    if issues != [] {
      RestOfNone(issues[1..]);
    }
  }

  /** The visible buckets keep their issues and order, but for `gone`. */
  ghost predicate BucketsKeepRest(before: Buckets, after: Buckets, gone: set<string>) {
    forall s :: Visible(s) ==> GetBucket(after, s).issues == Rest(GetBucket(before, s).issues, gone)
  }

  lemma RemoveKeepsRest(c: Buckets, id: string)
    requires WellFormed(c)
    ensures BucketsKeepRest(c, RemoveIssueFromBuckets(c, id), {id})
  {
    forall s | Visible(s)
      ensures GetBucket(RemoveIssueFromBuckets(c, id), s).issues == Rest(GetBucket(c, s).issues, {id})
    {
      RemoveFiltersBuckets(c, id, s);
    }
  }

  lemma PruneShowsRest(lists: map<string, Buckets>, id: string)
    requires AllWellFormed(lists)
    ensures ShowsRest(lists, PruneEach(lists, id), {id})
  {
    forall k | k in lists
      ensures Refines(lists[k], PruneEach(lists, id)[k], RemoveFromMap(View(lists[k]), id))
      ensures BucketsKeepRest(lists[k], PruneEach(lists, id)[k], {id})
    {
      RemoveRefines(lists[k], id);
      RemoveKeepsRest(lists[k], id);
    }
  }

  lemma PruneKeepsRest(children: map<string, seq<Issue>>, id: string)
    ensures KeepsRest(children, PruneChildren(children, id), {id})
  {
  }

  /** After the optimistic delete the id is in no list, no "my issues" list, no detail and no
      per-parent children cache, and every other issue in them is as it was. */
  lemma DeleteLeavesNoTrace(s: State, id: string)
    requires AllWellFormed(s.lists) && AllWellFormed(s.myLists)
    ensures var next := DeleteState(s, id);
      && ShowsRest(s.lists, next.lists, {id}) && ShowsRest(s.myLists, next.myLists, {id})
      && KeepsRest(s.children, next.children, {id})
      && next.details == s.details - {id}
  {
    PruneShowsRest(s.lists, id);
    PruneShowsRest(s.myLists, id);
    PruneKeepsRest(s.children, id);
  }

  lemma SubtractTwice<K, V>(m: map<K, V>, gone: set<K>, more: set<K>)
    ensures (m - gone) - more == m - (gone + more)
  {
  }

  lemma BucketsKeepRestTwice(a: Buckets, b: Buckets, c: Buckets, gone: set<string>, more: set<string>)
    requires BucketsKeepRest(a, b, gone) && BucketsKeepRest(b, c, more)
    ensures BucketsKeepRest(a, c, gone + more)
  {
    forall s | Visible(s)
      ensures GetBucket(c, s).issues == Rest(GetBucket(a, s).issues, gone + more)
    {
      RestTwice(GetBucket(a, s).issues, gone, more);
    }
  }

  lemma ShowsRestTwice(a: map<string, Buckets>, b: map<string, Buckets>, c: map<string, Buckets>, gone: set<string>,
                       more: set<string>)
    requires ShowsRest(a, b, gone) && ShowsRest(b, c, more)
    ensures ShowsRest(a, c, gone + more)
  {
    forall k | k in a
      ensures View(c[k]) == View(a[k]) - (gone + more) && BucketsKeepRest(a[k], c[k], gone + more)
    {
      SubtractTwice(View(a[k]), gone, more);
      BucketsKeepRestTwice(a[k], b[k], c[k], gone, more);
    }
  }

  lemma KeepsRestTwice(a: map<string, seq<Issue>>, b: map<string, seq<Issue>>, c: map<string, seq<Issue>>,
                       gone: set<string>, more: set<string>)
    requires KeepsRest(a, b, gone) && KeepsRest(b, c, more)
    ensures KeepsRest(a, c, gone + more)
  {
    forall p | p in a && p != ""
      ensures c[p] == Rest(a[p], gone + more)
    {
      RestTwice(a[p], gone, more);
    }
  }

  lemma PruneOneMore(s: State, mid: State, gone: set<string>, id: string)
    requires ShowsRest(s.lists, mid.lists, gone) && ShowsRest(s.myLists, mid.myLists, gone)
    requires KeepsRest(s.children, mid.children, gone)
    ensures ShowsRest(s.lists, PruneEach(mid.lists, id), gone + {id})
    ensures ShowsRest(s.myLists, PruneEach(mid.myLists, id), gone + {id})
    ensures KeepsRest(s.children, PruneChildren(mid.children, id), gone + {id})
  {
    PruneShowsRest(mid.lists, id);
    PruneShowsRest(mid.myLists, id);
    PruneKeepsRest(mid.children, id);
    ShowsRestTwice(s.lists, mid.lists, PruneEach(mid.lists, id), gone, {id});
    ShowsRestTwice(s.myLists, mid.myLists, PruneEach(mid.myLists, id), gone, {id});
    KeepsRestTwice(s.children, mid.children, PruneChildren(mid.children, id), gone, {id});
  }

  lemma NothingGone(lists: map<string, Buckets>, children: map<string, seq<Issue>>)
    requires AllWellFormed(lists)
    ensures ShowsRest(lists, lists, {}) && KeepsRest(children, children, {})
  {
    forall issues
      ensures Rest(issues, {}) == issues
    {
      RestOfNone(issues);
    }
    forall k | k in lists
      ensures View(lists[k]) - {} == View(lists[k])
    {
    }
  }

  /** A batch delete leaves none of its ids behind, in whatever order and however often it names them. */
  lemma {:induction false} BatchDeleteLeavesNoTrace(s: State, ids: seq<string>)
    requires AllWellFormed(s.lists) && AllWellFormed(s.myLists)
    ensures var next := PruneMany(s, ids);
      && ShowsRest(s.lists, next.lists, Members(ids)) && ShowsRest(s.myLists, next.myLists, Members(ids))
      && KeepsRest(s.children, next.children, Members(ids))
  {
    if |ids| == 0 {
      assert Members(ids) == {};
      NothingGone(s.lists, s.children);
      NothingGone(s.myLists, s.children);
    } else {
      var front, id := ids[..|ids| - 1], ids[|ids| - 1];
      BatchDeleteLeavesNoTrace(s, front);
      PruneOneMore(s, PruneMany(s, front), Members(front), id);
      SplitLast(ids);
      assert Members(ids) == Members(front) + {id};
    }
  }

  // ----- batch updates ---------------------------------------------------------------

  /** The map in which the issues under `ids` carry the patch, and are gone if it cancels them. */
  function PatchedMap(m: map<string, Issue>, ids: set<string>, patch: Patch): map<string, Issue> {
    map id | id in m && (id in ids ==> Visible(Merge(m[id], patch).status)) ::
      if id in ids then Merge(m[id], patch) else m[id]
  }

  lemma PatchOneMore(m: map<string, Issue>, ids: set<string>, id: string, patch: Patch)
    ensures PatchMap(PatchedMap(m, ids, patch), id, patch) == PatchedMap(m, ids + {id}, patch)
  {
    if id in m {
      MergeLaws(m[id], patch, m[id]);
    }
  }

  lemma RefinesTwice(a: Buckets, b: Buckets, c: Buckets, m: map<string, Issue>, n: map<string, Issue>)
    requires Refines(a, b, m) && Refines(b, c, n)
    ensures Refines(a, c, n)
  {
  }

  lemma BatchPatchStep(c: Buckets, mid: Buckets, ids: set<string>, id: string, patch: Patch)
    requires Refines(c, mid, PatchedMap(View(c), ids, patch))
    ensures Refines(c, PatchIssueInBuckets(mid, id, patch), PatchedMap(View(c), ids + {id}, patch))
  {
    PatchRefines(mid, id, patch);
    PatchOneMore(View(c), ids, id, patch);
    RefinesTwice(c, mid, PatchIssueInBuckets(mid, id, patch), View(mid), PatchMap(View(mid), id, patch));
  }

  /** A batch update of one list: every shown issue among the ids carries the patch, or is gone if that
      cancels it; every other issue is as it was, and the totals move with the issues shown. The order
      of the ids and their repetition make no difference. */
  lemma {:induction false} BatchPatchRefines(c: Buckets, ids: seq<string>, patch: Patch)
    requires WellFormed(c)
    ensures Refines(c, PatchMany(c, ids, patch), PatchedMap(View(c), Members(ids), patch))
  {
    if |ids| == 0 {
      BatchOfNone(c, ids, patch);
    } else {
      var front, id := ids[..|ids| - 1], ids[|ids| - 1];
      BatchPatchRefines(c, front, patch);
      BatchPatchStep(c, PatchMany(c, front, patch), Members(front), id, patch);
      MembersSnoc(ids);
    }
  }

  lemma BatchOfNone(c: Buckets, ids: seq<string>, patch: Patch)
    requires WellFormed(c) && |ids| == 0
    ensures Refines(c, c, PatchedMap(View(c), Members(ids), patch))
  {
    assert Members(ids) == {};
    assert PatchedMap(View(c), {}, patch) == View(c);
  }

  lemma MembersSnoc(ids: seq<string>)
    requires |ids| > 0
    ensures Members(ids) == Members(ids[..|ids| - 1]) + {ids[|ids| - 1]}
  {
    SplitLast(ids);
  }

  /** What a batch update leaves in the caches: every list as above; in every children cache the issues
      among the ids carry the patch and all keep their places; the rest is untouched. */
  lemma BatchUpdateMeaning(s: State, ids: seq<string>, patch: Patch, k: string, p: string, i: nat)
    requires k in s.lists && WellFormed(s.lists[k]) && p in s.children && i < |s.children[p]|
    ensures var next := BatchUpdateState(s, ids, patch);
      && next.lists.Keys == s.lists.Keys && next.children.Keys == s.children.Keys
      && next.myLists == s.myLists && next.details == s.details
      && Refines(s.lists[k], next.lists[k], PatchedMap(View(s.lists[k]), Members(ids), patch))
      && |next.children[p]| == |s.children[p]|
      && next.children[p][i] ==
           if s.children[p][i].id in ids then Merge(s.children[p][i], patch) else s.children[p][i]
  {
    BatchPatchRefines(s.lists[k], ids, patch);
  }

  // ----- the parents a delete collects ----------------------------------------------------

  /** Collected is every non-empty parent that the detail, a list, a "my issues" list or a children cache
      names for the issue, and every such cache's own. */
  lemma DeletedParentsMeaning(s: State, id: string, p: string)
    requires AllWellFormed(s.lists) && AllWellFormed(s.myLists)
    ensures p in DeletedParents(s, id) <==> p != "" && SomethingNames(s, id, p)
  {
    forall k | k in s.lists
      ensures ParentInList(s.lists[k], id) == ShownParent(Some(s.lists[k]), id)
    {
      LocationIsInView(s.lists[k], id);
    }
    forall k | k in s.myLists
      ensures ParentInList(s.myLists[k], id) == ShownParent(Some(s.myLists[k]), id)
    {
      LocationIsInView(s.myLists[k], id);
    }
    forall k | k in s.children
      ensures NamesParent(s.children[k], id, p) <==> ParentInChildren(s.children[k], id) == Some(p)
    {
      FindIssueIsFirst(s.children[k], id);
    }
    if p in s.children {
      FindIssueFinds(s.children[p], id);
    }
  }

  ghost predicate SomethingNames(s: State, id: string, p: string) {
    || (id in s.details && s.details[id].parentIssueId == Some(p))
    || (exists k :: k in s.lists && ShownParent(Some(s.lists[k]), id) == Some(p))
    || (exists k :: k in s.myLists && ShownParent(Some(s.myLists[k]), id) == Some(p))
    || (exists k :: k in s.children && NamesParent(s.children[k], id, p))
    || (p in s.children && exists i :: i in s.children[p] && i.id == id)
  }

  /** The first issue under the id names `p` as its parent. */
  ghost predicate NamesParent(issues: seq<Issue>, id: string, p: string) {
    exists j ::
      0 <= j < |issues| && issues[j].id == id && issues[j].parentIssueId == Some(p) && NoneBefore(issues, id, j)
  }

  ghost predicate NoneBefore(issues: seq<Issue>, id: string, j: int) {
    forall i :: 0 <= i < j && i < |issues| ==> issues[i].id != id
  }

  lemma {:induction false} FindIssueIsFirst(issues: seq<Issue>, id: string)
    ensures match FindIssue(issues, id)
      case Some(i) => exists j :: 0 <= j < |issues| && issues[j] == i && i.id == id && NoneBefore(issues, id, j)
      case None => NoneBefore(issues, id, |issues|)
  {
    if issues != [] {
      FindIssueIsFirst(issues[1..], id);
      if issues[0].id == id {
        assert NoneBefore(issues, id, 0);
      } else {
        forall j
          ensures NoneBefore(issues[1..], id, j) ==> NoneBefore(issues, id, j + 1)
        {
          assert NoneBefore(issues[1..], id, j) ==>
            forall i :: 0 < i < j + 1 && i < |issues| ==> issues[i] == issues[1..][i - 1];
        }
        if FindIssue(issues, id).Some? {
          var i := FindIssue(issues, id).value;
          var j :| 0 <= j < |issues[1..]| && issues[1..][j] == i && NoneBefore(issues[1..], id, j);
          assert issues[j + 1] == i && NoneBefore(issues, id, j + 1);
        }
      }
    }
  }

  // ----- updates ---------------------------------------------------------------------

  ghost predicate HoldsChild(s: State, p: string, id: string) {
    p in s.children && FindIssue(s.children[p], id).Some?
  }

  /** At most one per-parent children cache, under a non-empty parent, holds the id, and a
      parent known from the detail or the first list is that one. */
  ghost predicate ParentsAgree(s: State, known: Option<string>, id: string) {
    && (forall p :: HoldsChild(s, p, id) ==> p != "" && (Truthy(known) ==> p == known.value))
    && (forall p, q :: HoldsChild(s, p, id) && HoldsChild(s, q, id) ==> p == q)
  }

  lemma {:induction false} FirstHoldingHolds(keys: seq<string>, s: State, id: string)
    ensures match FirstHolding(keys, s.children, id)
      case Some(p) => HoldsChild(s, p, id)
      case None => forall p :: p in keys ==> !HoldsChild(s, p, id)
  {
    if |keys| > 0 {
      FirstHoldingHolds(keys[1..], s, id);
    }
  }

  lemma {:induction false} FoundIsHeld(issues: seq<Issue>, id: string)
    ensures HasAny(issues, {id}) <==> FindIssue(issues, id).Some?
  {
    if |issues| > 0 {
      FoundIsHeld(issues[1..], id);
    }
  }

  /** An update at `parent` patches the issue in every children cache that shows it. */
  ghost predicate PatchReaches(s: State, parent: Option<string>, id: string, patch: Patch) {
    UpdateState(s, id, patch, parent).children == PatchAllChildren(s.children, {id}, patch)
  }

  /** Every children cache that holds the id is the one under `parent`. */
  ghost predicate OnlyHeldAt(s: State, parent: Option<string>, id: string) {
    forall p :: HoldsChild(s, p, id) ==> Truthy(parent) && p == parent.value
  }

  lemma HeldAtIsReached(s: State, parent: Option<string>, id: string, patch: Patch)
    requires OnlyHeldAt(s, parent, id)
    ensures PatchReaches(s, parent, id, patch)
  {
    forall p | p in s.children && !(Truthy(parent) && parent.value == p)
      ensures PatchChildren(s.children[p], {id}, patch) == s.children[p]
    {
      assert !HoldsChild(s, p, id);
      FoundIsHeld(s.children[p], id);
      PatchNothing(s.children[p], {id}, patch);
    }
  }

  function Retitled(title: string): Patch {
    NO_CHANGE.(title := Some(title))
  }

  /** A cache that holds the id elsewhere misses a change of title. */
  lemma HeldElsewhereIsMissed(s: State, parent: Option<string>, id: string, p: string)
    requires HoldsChild(s, p, id) && !(Truthy(parent) && p == parent.value)
    ensures exists patch :: !PatchReaches(s, parent, id, patch)
  {
    var issues := s.children[p];
    FindIssueFinds(issues, id);
    var i := FindIssue(issues, id).value;
    var k :| 0 <= k < |issues| && issues[k] == i;
    var patch := Retitled(i.title + "x");
    assert PatchChildren(issues, {id}, patch)[k].title != issues[k].title;
    assert UpdateState(s, id, patch, parent).children[p] == issues;
    assert !PatchReaches(s, parent, id, patch);
  }

  lemma ParentsAgreeIsHeldAt(s: State, firstList: Option<Buckets>, childKeys: seq<string>, id: string)
    requires forall p :: p in s.children ==> p in childKeys
    ensures OnlyHeldAt(s, UpdatedParent(s, firstList, childKeys, id), id)
      <==> ParentsAgree(s, KnownParent(s.details, firstList, id), id)
  {
    FirstHoldingHolds(childKeys, s, id);
  }

  /** Every update reaches every children cache that shows the issue exactly when the caches agree
      on its parent. */
  lemma UpdateReachesExactlyWhenParentsAgree(s: State, firstList: Option<Buckets>, childKeys: seq<string>, id: string)
    requires forall p :: p in s.children ==> p in childKeys
    ensures (forall patch :: PatchReaches(s, UpdatedParent(s, firstList, childKeys, id), id, patch))
      <==> ParentsAgree(s, KnownParent(s.details, firstList, id), id)
  {
    var parent := UpdatedParent(s, firstList, childKeys, id);
    ParentsAgreeIsHeldAt(s, firstList, childKeys, id);
    if OnlyHeldAt(s, parent, id) {
      forall patch
        ensures PatchReaches(s, parent, id, patch)
      {
        HeldAtIsReached(s, parent, id, patch);
      }
    } else {
      var p :| HoldsChild(s, p, id) && !(Truthy(parent) && p == parent.value);
      HeldElsewhereIsMissed(s, parent, id, p);
    }
  }

  /** What an update leaves in the lists and the details. */
  lemma UpdateMeaning(s: State, id: string, patch: Patch, parent: Option<string>, k: string)
    requires k in s.lists && WellFormed(s.lists[k])
    ensures var next := UpdateState(s, id, patch, parent);
      && next.lists.Keys == s.lists.Keys && next.myLists == s.myLists && next.details.Keys == s.details.Keys
      && Refines(s.lists[k], next.lists[k], PatchMap(View(s.lists[k]), id, patch))
      && forall x :: x in s.details ==>
           next.details[x] == if x == id then Merge(s.details[x], patch) else s.details[x]
  {
    assert Refines(s.lists[k], PatchIssueInBuckets(s.lists[k], id, patch), PatchMap(View(s.lists[k]), id, patch)) by {
      PatchRefines(s.lists[k], id, patch);
    }
  }

  /** Of the children caches it patches the one under `parent`, in place. */
  lemma UpdatePatchesChildren(s: State, id: string, patch: Patch, parent: Option<string>, p: string, i: nat)
    requires p in s.children && i < |s.children[p]|
    ensures var next := UpdateState(s, id, patch, parent).children;
      && next.Keys == s.children.Keys && |next[p]| == |s.children[p]|
      && next[p][i] ==
           if p != "" && parent == Some(p) && s.children[p][i].id == id then Merge(s.children[p][i], patch)
           else s.children[p][i]
  {
  }

  /** The parent of the issue that the list shows under the id. */
  function ShownParent(list: Option<Buckets>, id: string): Option<string> {
    if list.Some? && id in View(list.value) then View(list.value)[id].parentIssueId else None
  }

  /** The parent an update goes by: the detail's, else that of the first list; and if that names none,
      the first children cache that holds the issue. */
  lemma UpdatedParentMeaning(s: State, firstList: Option<Buckets>, childKeys: seq<string>, id: string)
    requires firstList.Some? ==> WellFormed(firstList.value)
    ensures var parent := UpdatedParent(s, firstList, childKeys, id);
      var detail := if id in s.details then s.details[id].parentIssueId else None;
      var known := if detail.Some? then detail else ShownParent(firstList, id);
      if Truthy(known) then parent == known
      else
        if exists j :: HoldsFirst(s, childKeys, id, j) then
          exists j :: HoldsFirst(s, childKeys, id, j) && parent == Some(childKeys[j])
        else parent == known
  {
    if firstList.Some? {
      LocationIsInView(firstList.value, id);
    }
    FirstHoldingIsFirst(childKeys, s, id);
  }

  /** The `j`-th children cache holds the id, and no earlier one does. */
  ghost predicate HoldsFirst(s: State, keys: seq<string>, id: string, j: int) {
    0 <= j < |keys| && HoldsChild(s, keys[j], id) && forall i :: 0 <= i < j ==> !HoldsChild(s, keys[i], id)
  }

  lemma {:induction false} FirstHoldingIsFirst(keys: seq<string>, s: State, id: string)
    ensures match FirstHolding(keys, s.children, id)
      case Some(p) => exists j :: HoldsFirst(s, keys, id, j) && keys[j] == p
      case None => forall j :: !HoldsFirst(s, keys, id, j)
  {
    if |keys| > 0 {
      FirstHoldingIsFirst(keys[1..], s, id);
      if HoldsChild(s, keys[0], id) {
        assert HoldsFirst(s, keys, id, 0);
      } else {
        forall j
          ensures HoldsFirst(s, keys, id, j) <==> HoldsFirst(s, keys[1..], id, j - 1)
        {
          if j > 0 {
            assert forall i :: 0 < i < j && j < |keys| ==> keys[i] == keys[1..][i - 1];
          }
        }
        var found := FirstHolding(keys[1..], s.children, id);
        if found.Some? {
          var j :| HoldsFirst(s, keys[1..], id, j) && keys[1..][j] == found.value;
          assert HoldsFirst(s, keys, id, j + 1);
        }
      }
    }
  }

  /** The event that moves an issue to another parent leaves it in the old parent's children cache,
      which then disagrees with the detail: later updates miss it until that cache is fetched again. */
  lemma ReparentBreaksAgreement(s: State, firstList: Option<Buckets>, later: Option<Buckets>, id: string,
                                patch: Patch, q: string)
    requires id in s.details && Truthy(s.details[id].parentIssueId)
    requires HoldsChild(s, s.details[id].parentIssueId.value, id)
    requires patch.parentIssueId == Some(Some(q)) && q != "" && s.details[id].parentIssueId != Some(q)
    ensures var next := UpdatedState(s, firstList, id, patch);
      next.children == s.children && !ParentsAgree(next, KnownParent(next.details, later, id), id)
  {
    var next := UpdatedState(s, firstList, id, patch);
    assert HoldsChild(next, s.details[id].parentIssueId.value, id);
  }

  const CHILD := Issue("i", Todo, Some("p"), None, "t", 0, [])

  const WITH_CHILD := State(map[], map[], map["i" := CHILD], map["p" := [CHILD]])

  const TO_PARENT_Q := NO_CHANGE.(parentIssueId := Some(Some("q")))

  /** After such an event an update misses the old parent's copy. */
  lemma StaleCopyIsMissed()
    ensures var next := UpdatedState(WITH_CHILD, None, "i", TO_PARENT_Q);
      && next.details["i"].parentIssueId == Some("q") && HoldsChild(next, "p", "i")
      && exists patch :: !PatchReaches(next, UpdatedParent(next, None, ["p"], "i"), "i", patch)
  {
    assert HoldsChild(WITH_CHILD, "p", "i");
    ReparentBreaksAgreement(WITH_CHILD, None, None, "i", TO_PARENT_Q, "q");
    var next := UpdatedState(WITH_CHILD, None, "i", TO_PARENT_Q);
    assert HoldsChild(next, "p", "i");
    UpdateReachesExactlyWhenParentsAgree(next, None, ["p"], "i");
  }

  // ----- server events -----------------------------------------------------------------

  datatype Event =
    | Created(issue: Issue)
    | Updated(id: string, patch: Patch)
    | Labelled(id: string, labels: seq<string>)
    | Deleted(id: string)

  function FirstList(keys: seq<string>, s: State): Option<Buckets> {
    if |keys| > 0 then Lookup(s.lists, keys[0]) else None
  }

  /** What the handler of an event makes of the caches; `keys` are the registered list queries. */
  function Handle(keys: seq<string>, s: State, e: Event): State {
    match e
    case Created(issue) => CreatedState(s, issue)
    case Updated(id, patch) => UpdatedState(s, FirstList(keys, s), id, patch)
    case Labelled(id, labels) => LabelledState(s, id, labels)
    case Deleted(id) => RemovedState(s, id)
  }

  function HandleAll(keys: seq<string>, s: State, events: seq<Event>): State
    decreases |events|
  {
    if |events| == 0 then s else HandleAll(keys, Handle(keys, s, events[0]), events[1..])
  }

  function AsOp(e: Event): Op {
    match e
    case Created(issue) => AddOp(issue)
    case Updated(id, patch) => PatchOp(id, patch)
    case Labelled(id, labels) => PatchOp(id, LabelPatch(labels))
    case Deleted(id) => RemoveOp(id)
  }

  function AsOps(events: seq<Event>): seq<Op> {
    seq(|events|, k requires 0 <= k < |events| => AsOp(events[k]))
  }

  lemma {:induction false} EventsRunAsOps(keys: seq<string>, s: State, events: seq<Event>, k: string)
    requires k in s.lists
    ensures var next := HandleAll(keys, s, events);
      k in next.lists && next.lists[k] == RunOps(s.lists[k], AsOps(events))
    decreases |events|
  {
    if |events| > 0 {
      var mid := Handle(keys, s, events[0]);
      assert k in mid.lists && mid.lists[k] == Apply(s.lists[k], AsOp(events[0]));
      EventsRunAsOps(keys, mid, events[1..], k);
      assert AsOps(events)[1..] == AsOps(events[1..]);
    }
  }

  /** Over every run of server events, each cached list behaves as a map from id to issue, as
      long as no created issue is already shown under another status. */
  lemma EventsRefine(keys: seq<string>, s: State, events: seq<Event>, k: string)
    requires k in s.lists && WellFormed(s.lists[k]) && AllAllowed(View(s.lists[k]), AsOps(events))
    ensures k in HandleAll(keys, s, events).lists
    ensures Refines(s.lists[k], HandleAll(keys, s, events).lists[k], RunOnMap(View(s.lists[k]), AsOps(events)))
  {
    EventsRunAsOps(keys, s, events, k);
    RunRefines(s.lists[k], AsOps(events));
  }

  /** The event that creates an issue changes the lists alone. */
  lemma CreatedTouchesLists(s: State, issue: Issue, k: string)
    requires k in s.lists && WellFormed(s.lists[k]) && Allowed(View(s.lists[k]), AddOp(issue))
    ensures var next := CreatedState(s, issue);
      && next == s.(lists := next.lists) && next.lists.Keys == s.lists.Keys
      && Refines(s.lists[k], next.lists[k], AddToMap(View(s.lists[k]), issue))
  {
    AddRefines(s.lists[k], issue);
  }

  /** The event that updates an issue patches, besides lists and detail, the children cache of the parent
      known so far, unless the patch sets another parent. */
  lemma UpdatedTouchesOldParent(s: State, firstList: Option<Buckets>, id: string, patch: Patch, p: string, i: nat)
    requires p in s.children && i < |s.children[p]| && (firstList.Some? ==> WellFormed(firstList.value))
    ensures var next := UpdatedState(s, firstList, id, patch);
      var detail := if id in s.details then s.details[id].parentIssueId else None;
      var known := if detail.Some? then detail else ShownParent(firstList, id);
      && next.children.Keys == s.children.Keys && |next.children[p]| == |s.children[p]|
      && next.children[p][i] ==
           if p != "" && known == Some(p) && s.children[p][i].id == id
              && (patch.parentIssueId == None || patch.parentIssueId == Some(Some(p)))
           then Merge(s.children[p][i], patch) else s.children[p][i]
  {
    if firstList.Some? {
      LocationIsInView(firstList.value, id);
    }
  }

  /** It patches every list and the detail like an update. */
  lemma UpdatedMeaning(s: State, firstList: Option<Buckets>, id: string, patch: Patch, k: string)
    requires k in s.lists && WellFormed(s.lists[k])
    ensures var next := UpdatedState(s, firstList, id, patch);
      && next.lists.Keys == s.lists.Keys && next.myLists == s.myLists && next.details.Keys == s.details.Keys
      && Refines(s.lists[k], next.lists[k], PatchMap(View(s.lists[k]), id, patch))
      && forall x :: x in s.details ==>
           next.details[x] == if x == id then Merge(s.details[x], patch) else s.details[x]
  {
    var oldParent := KnownParent(s.details, firstList, id);
    var parentChanged := patch.parentIssueId.Some? && patch.parentIssueId.value != oldParent;
    UpdateMeaning(s, id, patch, if parentChanged then None else oldParent, k);
  }

  /** The labels event sets the labels of the one issue in every list and in the detail, and no other field. */
  lemma LabelsEventSetsLabels(s: State, id: string, labels: seq<string>, k: string)
    requires k in s.lists && WellFormed(s.lists[k])
    ensures var next := LabelledState(s, id, labels);
      && next.lists.Keys == s.lists.Keys && next.myLists == s.myLists && next.children == s.children
      && next.details == (if id in s.details then s.details[id := s.details[id].(labels := labels)] else s.details)
      && Refines(s.lists[k], next.lists[k],
                 if id in View(s.lists[k]) then View(s.lists[k])[id := View(s.lists[k])[id].(labels := labels)]
                 else View(s.lists[k]))
  {
    UpdateMeaning(s, id, LabelPatch(labels), None, k);
    LabelledMap(s.lists[k], id, labels);
  }

  lemma LabelledMap(c: Buckets, id: string, labels: seq<string>)
    requires WellFormed(c)
    ensures PatchMap(View(c), id, LabelPatch(labels))
         == if id in View(c) then View(c)[id := View(c)[id].(labels := labels)] else View(c)
  {
    if id in View(c) {
      ShownIsVisible(c, id);
    }
  }

  lemma ShownIsVisible(c: Buckets, id: string)
    requires WellFormed(c) && id in View(c)
    ensures Visible(View(c)[id].status)
  {
    ViewHolds(c);
  }

  /** Two lists that show the same issues, however they order them, go on showing the same issues. */
  lemma ListsStayInAgreement(keys: seq<string>, s: State, events: seq<Event>, k: string, l: string)
    requires k in s.lists && WellFormed(s.lists[k]) && l in s.lists && WellFormed(s.lists[l])
    requires View(s.lists[k]) == View(s.lists[l]) && AllAllowed(View(s.lists[k]), AsOps(events))
    ensures var next := HandleAll(keys, s, events);
      k in next.lists && l in next.lists && View(next.lists[k]) == View(next.lists[l])
  {
    EventsRefine(keys, s, events, k);
    EventsRefine(keys, s, events, l);
  }

  lemma TwoEvents(keys: seq<string>, s: State, first: Event, second: Event)
    ensures HandleAll(keys, s, [first, second]) == Handle(keys, Handle(keys, s, first), second)
  {
    var mid := Handle(keys, s, first);
    assert [first, second][1..] == [second] && [second][1..] == [];
    assert HandleAll(keys, mid, [second]) == HandleAll(keys, Handle(keys, mid, second), []);
  }

  /** Two events that create the same issue under different statuses break a list. */
  lemma CreatedUnderTwoStatuses(keys: seq<string>, s: State, issue: Issue, t: Status, k: string)
    requires k in s.lists && s.lists[k] == map[] && Visible(issue.status) && Visible(t) && t != issue.status
    ensures var next := HandleAll(keys, s, [Created(issue), Created(issue.(status := t))]);
      WellFormed(s.lists[k]) && k in next.lists && !WellFormed(next.lists[k])
  {
    TwoEvents(keys, s, Created(issue), Created(issue.(status := t)));
    AddedUnderTwoStatuses(issue, t);
  }

  // ----- the server's echo of the client's own change -----------------------------------------------

  lemma ReplaceWithItself(issues: seq<Issue>, issue: Issue)
    requires DistinctIssues(issues) && issue in issues
    ensures ReplaceIssue(issues, issue.id, issue) == issues
  {
  }

  lemma PatchedThere(c: Buckets, id: string, patch: Patch, loc: Location)
    requires WellFormed(c) && FindIssueLocation(PatchIssueInBuckets(c, id, patch), id) == Some(loc)
    ensures Merge(loc.issue, patch) == loc.issue && loc.issue.id == id && Or(patch.status, loc.status) == loc.status
    ensures var b := GetBucket(PatchIssueInBuckets(c, id, patch), loc.status);
      DistinctIssues(b.issues) && loc.issue in b.issues
  {
    var once := PatchIssueInBuckets(c, id, patch);
    PatchRefines(c, id, patch);
    LocationIsInView(once, id);
    assert StatusOk(once, loc.status);
    assert id in View(c) && loc.issue == Merge(View(c)[id], patch);
    MergeLaws(View(c)[id], patch, loc.issue);
  }

  lemma PatchUnmoved(c: Buckets, id: string, patch: Patch, loc: Location)
    requires FindIssueLocation(c, id) == Some(loc) && Or(patch.status, loc.status) == loc.status
    requires Merge(loc.issue, patch) == loc.issue && loc.issue.id == id
    requires DistinctIssues(GetBucket(c, loc.status).issues) && loc.issue in GetBucket(c, loc.status).issues
    ensures PatchIssueInBuckets(c, id, patch) == c
  {
    ReplaceWithItself(GetBucket(c, loc.status).issues, loc.issue);
  }

  /** A patch applied again changes nothing. */
  lemma PatchAgain(c: Buckets, id: string, patch: Patch)
    requires WellFormed(c)
    ensures var once := PatchIssueInBuckets(c, id, patch); PatchIssueInBuckets(once, id, patch) == once
  {
    var once := PatchIssueInBuckets(c, id, patch);
    if FindIssueLocation(once, id).Some? {
      PatchedThere(c, id, patch, FindIssueLocation(once, id).value);
      PatchUnmoved(once, id, patch, FindIssueLocation(once, id).value);
    }
  }

  lemma RemoveAgain(c: Buckets, id: string)
    requires WellFormed(c)
    ensures var once := RemoveIssueFromBuckets(c, id); RemoveIssueFromBuckets(once, id) == once
  {
    RemoveRefines(c, id);
    LocationIsInView(RemoveIssueFromBuckets(c, id), id);
  }

  lemma AddAgain(c: Buckets, issue: Issue)
    ensures var once := AddIssueToBuckets(c, issue); AddIssueToBuckets(once, issue) == once
  {
    var once := AddIssueToBuckets(c, issue);
    FindIssueFinds(GetBucket(c, issue.status).issues, issue.id);
    FindIssueFinds(GetBucket(once, issue.status).issues, issue.id);
    if FindIssue(GetBucket(c, issue.status).issues, issue.id).None? {
      assert GetBucket(once, issue.status).issues == GetBucket(c, issue.status).issues + [issue];
    }
  }

  /** The event for an issue that the client added already changes nothing. */
  lemma CreateEchoIsHarmless(s: State, issue: Issue)
    ensures CreatedState(CreatedState(s, issue), issue) == CreatedState(s, issue)
  {
    forall k | k in s.lists
      ensures AddIssueToBuckets(AddIssueToBuckets(s.lists[k], issue), issue) == AddIssueToBuckets(s.lists[k], issue)
    {
      AddAgain(s.lists[k], issue);
    }
  }

  lemma PruneEachAgain(lists: map<string, Buckets>, id: string)
    requires AllWellFormed(lists)
    ensures PruneEach(PruneEach(lists, id), id) == PruneEach(lists, id)
  {
    forall k | k in lists
      ensures RemoveIssueFromBuckets(RemoveIssueFromBuckets(lists[k], id), id) == RemoveIssueFromBuckets(lists[k], id)
    {
      RemoveAgain(lists[k], id);
    }
  }

  /** After an optimistic delete the event for it changes nothing but the deleted issue's own children
      cache, as if it had come alone. */
  lemma DeleteEchoIsHarmless(s: State, id: string)
    requires AllWellFormed(s.lists) && AllWellFormed(s.myLists)
    ensures var next := DeleteState(s, id);
      RemovedState(next, id) == next.(children := next.children - {id}) && RemovedState(next, id) == RemovedState(s, id)
  {
    PruneEachAgain(s.lists, id);
    PruneEachAgain(s.myLists, id);
    forall p | p in s.children
      ensures DropIssue(DropIssue(s.children[p], id), id) == DropIssue(s.children[p], id)
    {
      RestTwice(s.children[p], {id}, {id});
      assert {id} + {id} == {id};
    }
    assert PruneChildren(PruneChildren(s.children, id), id) == PruneChildren(s.children, id);
  }

  lemma PatchedParent(c: Buckets, id: string, patch: Patch)
    requires WellFormed(c)
    ensures var after := ParentInList(PatchIssueInBuckets(c, id, patch), id);
      after.Some? ==> after == Or(patch.parentIssueId, ParentInList(c, id))
  {
    PatchRefines(c, id, patch);
    LocationIsInView(c, id);
    LocationIsInView(PatchIssueInBuckets(c, id, patch), id);
  }

  /** The parent the event reads is the one the update knew, or the one the patch sets. */
  lemma EchoedParent(keys: seq<string>, s: State, id: string, patch: Patch, parent: Option<string>)
    requires AllWellFormed(s.lists)
    ensures var next := UpdateState(s, id, patch, parent);
      var after := KnownParent(next.details, FirstList(keys, next), id);
      after.Some? ==>
        if patch.parentIssueId.Some? then patch.parentIssueId == Some(after)
        else after == KnownParent(s.details, FirstList(keys, s), id)
  {
    if FirstList(keys, s).Some? {
      PatchedParent(FirstList(keys, s).value, id, patch);
    }
  }

  lemma PatchChildrenAgain(issues: seq<Issue>, ids: set<string>, patch: Patch)
    ensures PatchChildren(PatchChildren(issues, ids, patch), ids, patch) == PatchChildren(issues, ids, patch)
  {
    forall i: Issue
      ensures Merge(Merge(i, patch), patch) == Merge(i, patch)
    {
      MergeLaws(i, patch, i);
    }
  }

  lemma PatchEachAgain(lists: map<string, Buckets>, id: string, patch: Patch)
    requires AllWellFormed(lists)
    ensures PatchEach(PatchEach(lists, id, patch), id, patch) == PatchEach(lists, id, patch)
  {
    forall k | k in lists
      ensures PatchIssueInBuckets(PatchIssueInBuckets(lists[k], id, patch), id, patch)
           == PatchIssueInBuckets(lists[k], id, patch)
    {
      PatchAgain(lists[k], id, patch);
    }
  }

  lemma PatchAgainAtParent(children: map<string, seq<Issue>>, parent: Option<string>, after: Option<string>,
                           id: string, patch: Patch)
    ensures var once := PatchChildrenOf(children, parent, id, patch);
      var twice := PatchChildrenOf(once, after, id, patch);
      && once.Keys == twice.Keys == children.Keys
      && (Truthy(after) ==> forall p :: p in once && p != after.value ==> twice[p] == once[p])
      && (after == parent || !Truthy(after) ==> twice == once)
  {
    if Truthy(after) && after == parent && after.value in children {
      PatchChildrenAgain(children[after.value], {id}, patch);
    }
  }

  /** After an optimistic update the event with the same patch changes nothing, except that it patches
      the children cache of a parent the patch itself sets, which the update left alone. */
  lemma UpdateEchoIsHarmless(keys: seq<string>, s: State, childKeys: seq<string>, id: string, patch: Patch)
    requires AllWellFormed(s.lists)
    ensures var parent := UpdatedParent(s, FirstList(keys, s), childKeys, id);
      var next := UpdateState(s, id, patch, parent);
      var echo := UpdatedState(next, FirstList(keys, next), id, patch);
      && echo == next.(children := echo.children) && echo.children.Keys == next.children.Keys
      && forall p :: p in next.children && echo.children[p] != next.children[p] ==> patch.parentIssueId == Some(Some(p))
  {
    var parent := UpdatedParent(s, FirstList(keys, s), childKeys, id);
    var next := UpdateState(s, id, patch, parent);
    PatchEachAgain(s.lists, id, patch);
    if id in s.details {
      MergeLaws(s.details[id], patch, s.details[id]);
    }
    EchoedParent(keys, s, id, patch, parent);
    PatchAgainAtParent(s.children, parent, KnownParent(next.details, FirstList(keys, next), id), id, patch);
  }
}
