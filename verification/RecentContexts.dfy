/** Recently visited issues and projects: a bounded list for each of a bounded number of workspaces. */
module RecentContexts {
  import opened Prelude

  const MAX_RECENT: nat := 20
  const MAX_WORKSPACES: nat := 50

  datatype Kind = IssueContext | ProjectContext

  datatype Ref = Ref(kind: Kind, id: string)

  datatype Entry = Entry(ref: Ref, caption: Option<string>, visitedAt: int)

  /** The workspace ids in insertion order, and the entries of each, newest first. */
  datatype Recent = Recent(order: seq<string>, buckets: map<string, seq<Entry>>)

  const EMPTY := Recent([], map[])

  function BucketOf(s: Recent, ws: string): seq<Entry> {
    if ws in s.buckets then s.buckets[ws] else []
  }

  function DropRef(entries: seq<Entry>, ref: Ref): seq<Entry> {
    if |entries| == 0 then [] else
      var front := DropRef(entries[..|entries| - 1], ref);
      if entries[|entries| - 1].ref == ref then front else front + [entries[|entries| - 1]]
  }

  function Take(entries: seq<Entry>, n: nat): seq<Entry> {
    if |entries| <= n then entries else entries[..n]
  }

  function HeadTime(s: Recent, ws: string): int {
    var bucket := BucketOf(s, ws);
    if |bucket| > 0 then bucket[0].visitedAt else 0
  }

  /** The workspace with the oldest head, the first such on a tie. */
  function Oldest(s: Recent, order: seq<string>): string
    requires |order| > 0
  {
    var last := order[|order| - 1];
    if |order| == 1 then last else
      var front := Oldest(s, order[..|order| - 1]);
      if HeadTime(s, last) < HeadTime(s, front) then last else front
  }

  function RemoveWorkspace(s: Recent, ws: string): Recent {
    Recent(Remove(s.order, ws), s.buckets - {ws})
  }

  // ----- what each call does --------------------------------------------------------------

  /** The state with the visit at the head of its bucket, before any workspace is evicted. */
  function Headed(s: Recent, ws: string, e: Entry): Recent {
    Recent(if ws in s.buckets then s.order else s.order + [ws],
           s.buckets[ws := Take([e] + DropRef(BucketOf(s, ws), e.ref), MAX_RECENT)])
  }

  function RecordVisit(s: Recent, ws: string, e: Entry): Recent {
    var next := Headed(s, ws, e);
    if |next.order| > MAX_WORKSPACES then RemoveWorkspace(next, Oldest(next, next.order)) else next
  }

  function ForgetContext(s: Recent, ws: string, ref: Ref): Recent {
    if ws !in s.buckets then s
    else
      var rest := DropRef(s.buckets[ws], ref);
      if |rest| == |s.buckets[ws]| then s
      else if |rest| == 0 then RemoveWorkspace(s, ws)
      else s.(buckets := s.buckets[ws := rest])
  }

  function KeepOnly(order: seq<string>, active: seq<string>): seq<string> {
    if |order| == 0 then [] else
      var front := KeepOnly(order[..|order| - 1], active);
      if order[|order| - 1] in active then front + [order[|order| - 1]] else front
  }

  function PruneWorkspaces(s: Recent, active: seq<string>): Recent {
    Recent(KeepOnly(s.order, active), map ws | ws in s.buckets && ws in active :: s.buckets[ws])
  }

  datatype Event =
    | Visit(ws: string, entry: Entry)
    | Forget(ws: string, ref: Ref)
    | Prune(active: seq<string>)

  function Step(s: Recent, e: Event): Recent {
    match e
    case Visit(ws, entry) => RecordVisit(s, ws, entry)
    case Forget(ws, ref) => ForgetContext(s, ws, ref)
    case Prune(active) => PruneWorkspaces(s, active)
  }

  function Run(events: seq<Event>): Recent {
    if |events| == 0 then EMPTY else Step(Run(events[..|events| - 1]), events[|events| - 1])
  }

  // ----- bounded and without repetition ----------------------------------------------------

  ghost predicate DistinctRefs(entries: seq<Entry>) {
    forall i, j :: 0 <= i < j < |entries| ==> entries[i].ref != entries[j].ref
  }

  ghost predicate BucketOk(entries: seq<Entry>) {
    0 < |entries| <= MAX_RECENT && DistinctRefs(entries)
  }

  ghost predicate Indexed(s: Recent) {
    && NoDuplicates(s.order)
    && (forall ws :: ws in s.order <==> ws in s.buckets)
    && (forall ws :: ws in s.buckets ==> BucketOk(s.buckets[ws]))
  }

  /** Every workspace listed once, at most fifty; every bucket non-empty, at most twenty, and
      without repetition. */
  ghost predicate Bounded(s: Recent) {
    Indexed(s) && |s.order| <= MAX_WORKSPACES
  }

  lemma {:induction false} DropRefMembers(entries: seq<Entry>, ref: Ref)
    ensures forall e :: e in DropRef(entries, ref) <==> e in entries && e.ref != ref
    ensures |DropRef(entries, ref)| <= |entries|
  {
    if |entries| > 0 {
      DropRefMembers(entries[..|entries| - 1], ref);
      SplitLast(entries);
    }
  }

  lemma {:induction false} DropRefShortens(entries: seq<Entry>, ref: Ref)
    ensures DropRef(entries, ref) == entries || |DropRef(entries, ref)| < |entries|
  {
    if |entries| > 0 {
      DropRefShortens(entries[..|entries| - 1], ref);
      SplitLast(entries);
    }
  }

  lemma {:induction false} DropRefFollows(entries: seq<Entry>, ref: Ref)
    ensures Follows(entries, DropRef(entries, ref))
  {
    if |entries| > 0 {
      var front := entries[..|entries| - 1];
      DropRefFollows(front, ref);
      DropRefMembers(front, ref);
      FollowsSnoc(front, DropRef(front, ref), entries[|entries| - 1]);
      SplitLast(entries);
    }
  }

  lemma {:induction false} DropRefDistinct(entries: seq<Entry>, ref: Ref)
    requires DistinctRefs(entries)
    ensures DistinctRefs(DropRef(entries, ref))
  {
    if |entries| > 0 {
      var front, last := entries[..|entries| - 1], entries[|entries| - 1];
      DropRefDistinct(front, ref);
      DropRefMembers(front, ref);
      var out := DropRef(front, ref);
      forall i | 0 <= i < |out|
        ensures out[i].ref != last.ref
      {
        assert out[i] in out;
        var k :| 0 <= k < |front| && front[k] == out[i];
      }
    }
  }

  lemma ConsDistinct(e: Entry, entries: seq<Entry>)
    requires DistinctRefs(entries)
    ensures DistinctRefs([e] + DropRef(entries, e.ref))
  {
    DropRefDistinct(entries, e.ref);
    DropRefMembers(entries, e.ref);
    var rest := DropRef(entries, e.ref);
    forall i | 0 <= i < |rest|
      ensures rest[i].ref != e.ref
    {
      assert rest[i] in rest;
    }
  }

  lemma {:induction false} KeepOnlyMembers(order: seq<string>, active: seq<string>)
    ensures forall x :: x in KeepOnly(order, active) <==> x in order && x in active
    ensures NoDuplicates(order) ==> NoDuplicates(KeepOnly(order, active))
    ensures |KeepOnly(order, active)| <= |order|
  {
    if |order| > 0 {
      var front, last := order[..|order| - 1], order[|order| - 1];
      KeepOnlyMembers(front, active);
      SplitLast(order);
      if NoDuplicates(order) && last in active {
        LastIsNew(order);
        NoDuplicatesConcat(KeepOnly(front, active), [last]);
      }
    }
  }

  lemma {:induction false} KeepOnlyFollows(order: seq<string>, active: seq<string>)
    ensures Follows(order, KeepOnly(order, active))
  {
    if |order| > 0 {
      var front := order[..|order| - 1];
      KeepOnlyFollows(front, active);
      KeepOnlyMembers(front, active);
      FollowsSnoc(front, KeepOnly(front, active), order[|order| - 1]);
      SplitLast(order);
    }
  }

  lemma {:induction false} OldestIsOldest(s: Recent, order: seq<string>)
    requires |order| > 0
    ensures Oldest(s, order) in order
    ensures forall ws :: ws in order ==> HeadTime(s, Oldest(s, order)) <= HeadTime(s, ws)
  {
    SplitLast(order);
    if |order| > 1 {
      OldestIsOldest(s, order[..|order| - 1]);
    }
  }

  lemma HeadedIsIndexed(s: Recent, ws: string, e: Entry)
    requires Indexed(s)
    ensures Indexed(Headed(s, ws, e)) && |Headed(s, ws, e).order| <= |s.order| + 1
    ensures HeadTime(Headed(s, ws, e), ws) == e.visitedAt
  {
    ConsDistinct(e, BucketOf(s, ws));
    if ws !in s.buckets {
      NoDuplicatesConcat(s.order, [ws]);
    }
  }

  lemma RemoveIsIndexed(s: Recent, ws: string)
    requires Indexed(s)
    ensures Indexed(RemoveWorkspace(s, ws))
    ensures |RemoveWorkspace(s, ws).order| <= |s.order|
    ensures ws in s.order ==> |RemoveWorkspace(s, ws).order| < |s.order|
  {
    RemoveMembers(s.order, ws);
  }

  lemma StepKeepsBounded(s: Recent, e: Event)
    requires Bounded(s)
    ensures Bounded(Step(s, e))
  {
    match e
    case Visit(ws, entry) =>
      var next := Headed(s, ws, entry);
      HeadedIsIndexed(s, ws, entry);
      if |next.order| > MAX_WORKSPACES {
        OldestIsOldest(next, next.order);
        RemoveIsIndexed(next, Oldest(next, next.order));
      }
    case Forget(ws, ref) =>
      if ws in s.buckets {
        DropRefDistinct(s.buckets[ws], ref);
        DropRefMembers(s.buckets[ws], ref);
        RemoveIsIndexed(s, ws);
      }
    case Prune(active) =>
      KeepOnlyMembers(s.order, active);
  }

  /** Over every run of visits, forgets and prunes. */
  lemma {:induction false} RunIsBounded(events: seq<Event>)
    ensures Bounded(Run(events))
  {
    if |events| > 0 {
      RunIsBounded(events[..|events| - 1]);
      StepKeepsBounded(Run(events[..|events| - 1]), events[|events| - 1]);
    }
  }

  // ----- what forgetting and pruning keep ------------------------------------------------------

  /** Forgetting takes exactly the one context out of the one workspace, which goes with its last one;
      everything else keeps its place. */
  lemma ForgetTakesOnlyThat(s: Recent, ws: string, ref: Ref)
    requires Indexed(s)
    ensures var next := ForgetContext(s, ws, ref);
      && Indexed(next) && Follows(s.order, next.order)
      && (forall w :: w in next.buckets <==>
            w in s.buckets && (w == ws ==> exists e :: e in s.buckets[w] && e.ref != ref))
      && (forall w :: w != ws ==> BucketOf(next, w) == BucketOf(s, w))
      && (forall e :: e in BucketOf(next, ws) <==> e in BucketOf(s, ws) && e.ref != ref)
      && Follows(BucketOf(s, ws), BucketOf(next, ws))
  {
    if ws in s.buckets {
      var bucket, rest := s.buckets[ws], DropRef(s.buckets[ws], ref);
      DropRefMembers(bucket, ref);
      DropRefShortens(bucket, ref);
      DropRefFollows(bucket, ref);
      DropRefDistinct(bucket, ref);
      RemoveIsIndexed(s, ws);
      RemoveFollows(s.order, ws);
      assert |rest| > 0 ==> rest[0] in rest;
      SelfFollows(s.order);
    } else {
      SelfFollows(s.order);
    }
  }

  /** Pruning keeps exactly the active workspaces, with their entries, in their order. */
  lemma PruneKeepsActive(s: Recent, active: seq<string>)
    requires Indexed(s)
    ensures var next := PruneWorkspaces(s, active);
      && (forall w :: w in next.order <==> w in s.order && w in active)
      && NoDuplicates(next.order) && Follows(s.order, next.order)
      && (forall w :: w in next.buckets <==> w in s.buckets && w in active)
      && (forall w :: w in next.buckets ==> next.buckets[w] == s.buckets[w])
  {
    KeepOnlyMembers(s.order, active);
    KeepOnlyFollows(s.order, active);
  }

  /** On a tie it is the workspace listed first that counts as the oldest. */
  lemma {:induction false} OldestIsFirstOfTies(s: Recent, order: seq<string>)
    requires |order| > 0
    ensures exists k :: OldestAt(s, order, k)
  {
    var n := |order| - 1;
    if n == 0 {
      assert OldestAt(s, order, 0);
    } else {
      OldestIsFirstOfTies(s, order[..n]);
      var k :| OldestAt(s, order[..n], k);
      var front := order[..n];
      assert forall j :: 0 <= j < n ==> order[j] == front[j];
      assert OldestAt(s, order, if HeadTime(s, order[n]) < HeadTime(s, Oldest(s, front)) then n else k);
    }
  }

  /** `order[k]` is the oldest; all before it are newer and none after it is older. */
  ghost predicate OldestAt(s: Recent, order: seq<string>, k: int)
    requires |order| > 0
  {
    && 0 <= k < |order| && order[k] == Oldest(s, order)
    && (forall j :: 0 <= j < k ==> HeadTime(s, order[k]) < HeadTime(s, order[j]))
    && (forall j :: k <= j < |order| ==> HeadTime(s, order[k]) <= HeadTime(s, order[j]))
  }

  /** A visit heads its own bucket, before what was there under other references, cut to twenty; a new
      workspace is listed last; no other bucket changes. */
  lemma VisitHeadsBucket(s: Recent, ws: string, e: Entry)
    requires Indexed(s)
    ensures var next := Headed(s, ws, e);
      && next.order == (if ws in s.order then s.order else s.order + [ws])
      && next.buckets.Keys == s.buckets.Keys + {ws}
      && (forall w :: w != ws ==> BucketOf(next, w) == BucketOf(s, w))
      && |next.buckets[ws]| > 0 && next.buckets[ws][0] == e
      && Follows(BucketOf(s, ws), next.buckets[ws][1..])
      && (forall x :: x in next.buckets[ws][1..] ==> x in BucketOf(s, ws) && x.ref != e.ref)
      && (|next.buckets[ws]| < 20 ==> forall x :: x in BucketOf(s, ws) && x.ref != e.ref ==> x in next.buckets[ws][1..])
  {
    HeadedBucket(BucketOf(s, ws), e);
  }

  lemma HeadedBucket(bucket: seq<Entry>, e: Entry)
    ensures var next := Take([e] + DropRef(bucket, e.ref), MAX_RECENT);
      && |next| > 0 && next[0] == e && Follows(bucket, next[1..])
      && (forall x :: x in next[1..] ==> x in bucket && x.ref != e.ref)
      && (|next| < 20 ==> forall x :: x in bucket && x.ref != e.ref ==> x in next[1..])
  {
    var rest := DropRef(bucket, e.ref);
    var next := Take([e] + rest, MAX_RECENT);
    DropRefMembers(bucket, e.ref);
    DropRefFollows(bucket, e.ref);
    assert ([e] + rest)[1..] == rest;
    assert next[1..] == rest[..|next| - 1];
    PrefixFollows(bucket, rest, |next| - 1);
  }

  lemma PrefixFollows(all: seq<Entry>, part: seq<Entry>, n: nat)
    requires Follows(all, part) && n <= |part|
    ensures Follows(all, part[..n]) && forall x :: x in part[..n] ==> x in part
  {
  }
}
