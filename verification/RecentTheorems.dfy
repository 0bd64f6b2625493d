/** Which workspace a visit evicts, and what a bucket remembers of its visits. */
module RecentTheorems {
  import opened Prelude
  import opened RecentContexts

  // ----- eviction with any clock ------------------------------------------------------------

  /** The fifty-first workspace is turned away at once exactly when its visit is older than
      every head already there; a tie is enough to stay. */
  lemma NewcomerEvictedExactlyWhenOlderThanAll(s: Recent, ws: string, e: Entry)
    requires Bounded(s) && |s.order| == MAX_WORKSPACES && ws !in s.buckets
    ensures ws !in RecordVisit(s, ws, e).buckets <==> forall o :: o in s.order ==> e.visitedAt < HeadTime(s, o)
  {
    var next := Headed(s, ws, e);
    HeadedIsIndexed(s, ws, e);
    DropLast(s.order, ws);
    OldestIsOldest(next, s.order);
    assert forall o :: o in s.order ==> HeadTime(next, o) == HeadTime(s, o);
  }

  // ----- eviction with an increasing clock ----------------------------------------------------

  ghost predicate AllBefore(events: seq<Event>, now: int) {
    forall e :: e in events && e.Visit? ==> e.entry.visitedAt < now
  }

  /** Every visit is later than all earlier ones. */
  ghost predicate Ticking(events: seq<Event>) {
    |events| == 0 || (
      var front, last := events[..|events| - 1], events[|events| - 1];
      Ticking(front) && (last.Visit? ==> AllBefore(front, last.entry.visitedAt)))
  }

  lemma {:induction false} TakeMembers(entries: seq<Entry>, n: nat)
    ensures forall e :: e in Take(entries, n) ==> e in entries
  {
  }

  lemma StepEntries(s: Recent, e: Event, ws: string, x: Entry)
    requires x in BucketOf(Step(s, e), ws)
    ensures x in BucketOf(s, ws) || e == Visit(ws, x)
  {
    match e
    case Visit(w, entry) =>
      DropRefMembers(BucketOf(s, w), entry.ref);
      TakeMembers([entry] + DropRef(BucketOf(s, w), entry.ref), MAX_RECENT);
    case Forget(w, ref) =>
      DropRefMembers(BucketOf(s, w), ref);
    case Prune(active) =>
  }

  lemma {:induction false} EntriesWereVisits(events: seq<Event>, ws: string, x: Entry)
    requires x in BucketOf(Run(events), ws)
    ensures Visit(ws, x) in events
  {
    if |events| > 0 {
      StepEntries(Run(events[..|events| - 1]), events[|events| - 1], ws, x);
      SplitLast(events);
      if x in BucketOf(Run(events[..|events| - 1]), ws) {
        EntriesWereVisits(events[..|events| - 1], ws, x);
      }
    }
  }

  /** With an increasing clock no time is shared between two workspaces. */
  lemma {:induction false} TimesDiffer(events: seq<Event>, ws: string, x: Entry, other: string, y: Entry)
    requires Ticking(events) && ws != other && x in BucketOf(Run(events), ws) && y in BucketOf(Run(events), other)
    ensures x.visitedAt != y.visitedAt
  {
    if |events| > 0 {
      var front, last := events[..|events| - 1], events[|events| - 1];
      StepEntries(Run(front), last, ws, x);
      StepEntries(Run(front), last, other, y);
      if last == Visit(ws, x) {
        EntriesWereVisits(front, other, y);
      } else if last == Visit(other, y) {
        EntriesWereVisits(front, ws, x);
      } else {
        TimesDiffer(front, ws, x, other, y);
      }
    }
  }

  /** `gone` is the one workspace whose head is older than every other's. */
  ghost predicate IsLeastRecent(s: Recent, gone: string) {
    gone in s.order && forall o :: o in s.order && o != gone ==> HeadTime(s, gone) < HeadTime(s, o)
  }

  /** A visit to a fifty-first workspace removes one whose head is no newer than any other's. */
  lemma EvictionRemovesOldest(s: Recent, ws: string, e: Entry) returns (gone: string)
    requires Bounded(s) && |s.order| == MAX_WORKSPACES && ws !in s.buckets
    ensures RecordVisit(s, ws, e).buckets == s.buckets[ws := [e]] - {gone}
    ensures gone in s.order + [ws]
    ensures gone == ws ==> forall o :: o in s.order ==> e.visitedAt <= HeadTime(s, o)
    ensures gone != ws ==> forall o :: o in s.order ==> HeadTime(s, gone) <= HeadTime(s, o)
  {
    var next := Headed(s, ws, e);
    HeadedIsIndexed(s, ws, e);
    gone := Oldest(next, next.order);
    OldestIsOldest(next, next.order);
    assert [e] + DropRef([], e.ref) == [e];
    assert next == Recent(s.order + [ws], s.buckets[ws := [e]]);
    assert forall o :: o in s.order ==>
      HeadTime(next, o) == HeadTime(s, o) && HeadTime(next, gone) <= HeadTime(next, o);
  }

  /** With an increasing clock a visit that overflows evicts exactly the least recently headed
      workspace, which is never the one visited. */
  lemma EvictionTakesLeastRecent(events: seq<Event>, ws: string, e: Entry)
    requires Ticking(events) && AllBefore(events, e.visitedAt)
    requires |Run(events).order| == MAX_WORKSPACES && ws !in Run(events).buckets
    ensures exists gone ::
      && IsLeastRecent(Run(events), gone) && gone != ws
      && RecordVisit(Run(events), ws, e).buckets == Run(events).buckets[ws := [e]] - {gone}
  {
    var s := Run(events);
    RunIsBounded(events);
    var gone := EvictionRemovesOldest(s, ws, e);
    forall o | o in s.order
      ensures HeadTime(s, o) < e.visitedAt
      ensures gone in s.order && gone != o ==> HeadTime(s, gone) != HeadTime(s, o)
    {
      HeadsDiffer(events, o, e.visitedAt, gone);
    }
    assert s.order[0] in s.order;
    assert IsLeastRecent(s, gone);
  }

  lemma HeadsDiffer(events: seq<Event>, o: string, now: int, other: string)
    requires Ticking(events) && AllBefore(events, now) && o in Run(events).order
    ensures HeadTime(Run(events), o) < now
    ensures other in Run(events).order && other != o ==> HeadTime(Run(events), other) != HeadTime(Run(events), o)
  {
    var s := Run(events);
    RunIsBounded(events);
    var x := s.buckets[o][0];
    assert BucketOk(s.buckets[o]) && x in BucketOf(s, o);
    EntriesWereVisits(events, o, x);
    if other in s.order && other != o {
      var y := s.buckets[other][0];
      assert BucketOk(s.buckets[other]) && y in BucketOf(s, other);
      TimesDiffer(events, o, x, other, y);
    }
  }

  // ----- what a bucket remembers -----------------------------------------------------------

  /** The visits of a workspace, oldest first. */
  function VisitsOf(events: seq<Event>, ws: string): seq<Entry> {
    if |events| == 0 then [] else
      var front, last := VisitsOf(events[..|events| - 1], ws), events[|events| - 1];
      if last.Visit? && last.ws == ws then front + [last.entry] else front
  }

  /** The workspaces visited, in the order of their first visit. */
  function Names(events: seq<Event>): seq<string> {
    if |events| == 0 then [] else
      var front, last := Names(events[..|events| - 1]), events[|events| - 1];
      if last.Visit? && last.ws !in front then front + [last.ws] else front
  }

  /** The last visit to each context, newest first. */
  function Latest(visits: seq<Entry>): seq<Entry> {
    if |visits| == 0 then [] else
      [visits[|visits| - 1]] + DropRef(Latest(visits[..|visits| - 1]), visits[|visits| - 1].ref)
  }

  /** `e` is a visit and no later one goes to the same context. */
  ghost predicate IsLastVisit(visits: seq<Entry>, e: Entry) {
    exists i :: 0 <= i < |visits| && visits[i] == e && forall j :: i < j < |visits| ==> visits[j].ref != e.ref
  }

  ghost predicate NewestFirst(entries: seq<Entry>) {
    forall i, j :: 0 <= i < j < |entries| ==> entries[i].visitedAt > entries[j].visitedAt
  }

  ghost predicate OldestFirst(entries: seq<Entry>) {
    forall i, j :: 0 <= i < j < |entries| ==> entries[i].visitedAt < entries[j].visitedAt
  }

  lemma IsLastVisitSnoc(front: seq<Entry>, last: Entry, e: Entry)
    ensures IsLastVisit(front + [last], e) <==> e == last || (IsLastVisit(front, e) && e.ref != last.ref)
  {
    var visits := front + [last];
    if IsLastVisit(visits, e) && e != last {
      var i :| 0 <= i < |visits| && visits[i] == e && forall j :: i < j < |visits| ==> visits[j].ref != e.ref;
      assert i < |front| && visits[|front|].ref != e.ref;
      assert front[i] == e && forall j :: i < j < |front| ==> front[j].ref == visits[j].ref;
    }
    if e == last {
      assert visits[|front|] == e;
    }
    if IsLastVisit(front, e) && e.ref != last.ref {
      var i :| 0 <= i < |front| && front[i] == e && forall j :: i < j < |front| ==> front[j].ref != e.ref;
      assert visits[i] == e;
    }
  }

  lemma {:induction false} DropRefKeepsOrder(entries: seq<Entry>, ref: Ref)
    requires NewestFirst(entries)
    ensures NewestFirst(DropRef(entries, ref))
  {
    if |entries| > 0 {
      var front, last := entries[..|entries| - 1], entries[|entries| - 1];
      DropRefKeepsOrder(front, ref);
      DropRefMembers(front, ref);
      var out := DropRef(front, ref);
      forall i | 0 <= i < |out|
        ensures out[i].visitedAt > last.visitedAt
      {
        assert out[i] in out;
        var k :| 0 <= k < |front| && front[k] == out[i];
      }
    }
  }

  lemma {:induction false} LatestMeaning(visits: seq<Entry>)
    ensures DistinctRefs(Latest(visits))
    ensures forall e :: e in Latest(visits) <==> IsLastVisit(visits, e)
    ensures OldestFirst(visits) ==> NewestFirst(Latest(visits))
  {
    if |visits| > 0 {
      var front, last := visits[..|visits| - 1], visits[|visits| - 1];
      LatestMeaning(front);
      SplitLast(visits);
      ConsDistinct(last, Latest(front));
      DropRefMembers(Latest(front), last.ref);
      forall e
        ensures e in Latest(visits) <==> IsLastVisit(visits, e)
      {
        IsLastVisitSnoc(front, last, e);
      }
      if OldestFirst(visits) {
        DropRefKeepsOrder(Latest(front), last.ref);
        var rest := DropRef(Latest(front), last.ref);
        forall i | 0 <= i < |rest|
          ensures rest[i].visitedAt < last.visitedAt
        {
          assert rest[i] in rest && IsLastVisit(front, rest[i]);
          var k :| 0 <= k < |front| && front[k] == rest[i];
          assert visits[k] == rest[i];
        }
      }
    }
  }

  lemma {:induction false} DropRefConcat(a: seq<Entry>, b: seq<Entry>, ref: Ref)
    ensures DropRef(a + b, ref) == DropRef(a, ref) + DropRef(b, ref)
  {
    if |b| == 0 {
      assert a + b == a;
    } else {
      var front, last := b[..|b| - 1], b[|b| - 1];
      DropRefConcat(a, front, ref);
      assert (a + b)[..|a + b| - 1] == a + front;
    }
  }

  lemma {:induction false} DropRefDropsOne(entries: seq<Entry>, ref: Ref)
    requires DistinctRefs(entries)
    ensures |DropRef(entries, ref)| >= |entries| - 1
    ensures (forall e :: e in entries ==> e.ref != ref) ==> |DropRef(entries, ref)| == |entries|
  {
    if |entries| > 0 {
      var front, last := entries[..|entries| - 1], entries[|entries| - 1];
      DropRefDropsOne(front, ref);
      if last.ref == ref {
        forall e | e in front
          ensures e.ref != ref
        {
          var k :| 0 <= k < |front| && front[k] == e;
        }
      }
    }
  }

  /** Cutting to `n` first does not show after the next visit. */
  lemma CutEarlierIsSame(all: seq<Entry>, e: Entry, n: nat)
    requires DistinctRefs(all) && n > 0
    ensures Take([e] + DropRef(Take(all, n), e.ref), n) == Take([e] + DropRef(all, e.ref), n)
  {
    if |all| > n {
      var a, b := all[..n], all[n..];
      assert all == a + b;
      DropRefConcat(a, b, e.ref);
      DropRefDropsOne(a, e.ref);
      DropRefMembers(a, e.ref);
      assert [e] + DropRef(all, e.ref) == ([e] + DropRef(a, e.ref)) + DropRef(b, e.ref);
    }
  }

  /** In a run of visits to at most fifty workspaces, the workspaces are listed by first visit
      and each bucket holds the first twenty of its latest visits, newest first. */
  lemma {:induction false} BucketsRememberLatest(events: seq<Event>, ws: string)
    requires (forall e :: e in events ==> e.Visit?) && |Names(events)| <= MAX_WORKSPACES
    ensures Run(events).order == Names(events)
    ensures BucketOf(Run(events), ws) == Take(Latest(VisitsOf(events, ws)), MAX_RECENT)
  {
    if |events| > 0 {
      var front, last := events[..|events| - 1], events[|events| - 1];
      assert last in events;
      BucketsRememberLatest(front, ws);
      BucketsRememberLatest(front, last.ws);
      RunIsBounded(front);
      if last.ws == ws {
        var visits := VisitsOf(front, ws);
        LatestMeaning(visits);
        CutEarlierIsSame(Latest(visits), last.entry, MAX_RECENT);
        DropLast(visits, last.entry);
      }
    }
  }

  // ----- the store -----------------------------------------------------------------------------

  method KeepActive(s: Recent, active: seq<string>) returns (changed: bool, next: Recent)
    requires forall ws :: ws in s.order <==> ws in s.buckets
    ensures next == RecentContexts.PruneWorkspaces(s, active)
    ensures !changed ==> next == s
  {
    changed := false;
    var kept: seq<string>, buckets: map<string, seq<Entry>> := [], map[];
    for i := 0 to |s.order|
      invariant kept == KeepOnly(s.order[..i], active)
      invariant forall ws :: ws in buckets <==> ws in kept
      invariant forall ws :: ws in buckets ==> ws in s.buckets && buckets[ws] == s.buckets[ws]
      invariant !changed ==> kept == s.order[..i]
    {
      var ws := s.order[i];
      assert s.order[..i + 1] == s.order[..i] + [ws];
      DropLast(s.order[..i], ws);
      if ws in active {
        buckets := buckets[ws := s.buckets[ws]];
        kept := kept + [ws];
      } else {
        changed := true;
      }
    }
    assert s.order[..|s.order|] == s.order;
    KeptIsPruned(s, active, kept, buckets);
    next := Recent(kept, buckets);
  }

  lemma KeptIsPruned(s: Recent, active: seq<string>, kept: seq<string>, buckets: map<string, seq<Entry>>)
    requires forall ws :: ws in s.order <==> ws in s.buckets
    requires kept == KeepOnly(s.order, active) && forall ws :: ws in buckets <==> ws in kept
    requires forall ws :: ws in buckets ==> ws in s.buckets && buckets[ws] == s.buckets[ws]
    ensures Recent(kept, buckets) == RecentContexts.PruneWorkspaces(s, active)
    ensures kept == s.order ==> buckets == s.buckets
  {
    KeepOnlyMembers(s.order, active);
  }

  class RecentContextStore {
    var order: seq<string>
    var byWorkspace: map<string, seq<Entry>>

    constructor ()
      ensures Model() == EMPTY
    {
      order, byWorkspace := [], map[];
    }

    ghost function Model(): Recent
      reads this
    {
      Recent(order, byWorkspace)
    }

    method RecordVisit(ws: string, entry: Entry)
      modifies this
      ensures Model() == Step(old(Model()), Visit(ws, entry))
    {
      var bucket := if ws in byWorkspace then byWorkspace[ws] else [];
      var nextBucket := Take([entry] + DropRef(bucket, entry.ref), MAX_RECENT);
      if ws !in byWorkspace {
        order := order + [ws];
      }
      byWorkspace := byWorkspace[ws := nextBucket];
      if |order| > MAX_WORKSPACES {
        var oldest := Oldest(Recent(order, byWorkspace), order);
        order := Remove(order, oldest);
        byWorkspace := byWorkspace - {oldest};
      }
    }

    method ForgetContext(ws: string, ref: Ref)
      modifies this
      ensures Model() == Step(old(Model()), Forget(ws, ref))
    {
      if ws !in byWorkspace { return; }
      var nextBucket := DropRef(byWorkspace[ws], ref);
      if |nextBucket| == |byWorkspace[ws]| { return; }
      if |nextBucket| == 0 {
        order := Remove(order, ws);
        byWorkspace := byWorkspace - {ws};
        return;
      }
      byWorkspace := byWorkspace[ws := nextBucket];
    }

    method PruneWorkspaces(active: seq<string>)
      requires forall ws :: ws in order <==> ws in byWorkspace
      modifies this
      ensures Model() == Step(old(Model()), Prune(active))
    {
      var changed, next := KeepActive(Recent(order, byWorkspace), active);
      if changed {
        order, byWorkspace := next.order, next.buckets;
      }
    }
  }
}
