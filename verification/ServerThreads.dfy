/** The server's own thread walk, and how the optimistic resolve compares with it. */
module ServerThreads {
  import opened Prelude
  import opened Timeline
  import opened Threads
  import opened RowTheorems

  /** Every parent a comment names is loaded. */
  ghost predicate FullyLoaded(es: seq<Entry>) {
    forall e :: e in es && e.kind.Comment? && e.parentId.Some? ==>
      e.parentId.value != "" && e.parentId.value in ById(es)
  }

  /** The query's root: `c` or an ancestor of it that has no parent. */
  ghost predicate IsServerRoot(byId: map<string, Entry>, c: string, root: string) {
    root in byId && Reaches(Up(byId), c, root) && byId[root].parentId.None?
  }

  /** The query's descendants: everything below the root, the root included; nothing without one. */
  ghost predicate IsServerThread(byId: map<string, Entry>, c: string, s: set<string>) {
    || (exists root :: IsServerRoot(byId, c, root) && IsSubtree(byId.Values, root, s))
    || (s == {} && forall root :: !IsServerRoot(byId, c, root))
  }

  lemma {:induction false} ClimbEndsLoaded(byId: map<string, Entry>, x: string, r: string, n: nat)
    requires x in byId && Climbs(Up(byId), x, r, n)
    ensures r in byId
    decreases n
  {
    if n > 0 {
      ClimbEndsLoaded(byId, Up(byId)[x], r, n - 1);
    }
  }

  lemma TopHasNoParent(es: seq<Entry>, r: string)
    requires FullyLoaded(es) && r in ById(es)
    ensures r !in Up(ById(es)) <==> ById(es)[r].parentId.None?
  {
    ByIdKeys(es);
    assert ById(es)[r] in es;
  }

  /** The server finds a root exactly when the comment's parents run into no cycle. */
  lemma ServerRootExactly(es: seq<Entry>, c: string)
    requires FullyLoaded(es) && c in ById(es)
    ensures (exists root :: IsServerRoot(ById(es), c, root)) <==> !EntersCycle(Up(ById(es)), c)
  {
    var up := Up(ById(es));
    if root :| IsServerRoot(ById(es), c, root) {
      TopHasNoParent(es, root);
      var n: nat :| Climbs(up, c, root, n);
      EndingChainHasNoCycle(up, c, root, n);
    }
    if !EntersCycle(up, c) {
      assert Climbs(up, c, c, 0);
      var r, m := ChainEnds(up, c, c, 0, {});
      ClimbEndsLoaded(ById(es), c, r, m);
      TopHasNoParent(es, r);
      assert IsServerRoot(ById(es), c, r);
    }
  }

  /** On a fully loaded timeline the two walks find the same thread. */
  lemma ServerFindsTheThread(es: seq<Entry>, c: string, s: set<string>)
    requires FullyLoaded(es) && c in ById(es) && !EntersCycle(Up(ById(es)), c)
    requires IsServerThread(ById(es), c, s)
    ensures s == ThreadOf(ById(es), c)
  {
    var byId := ById(es);
    ServerRootExactly(es, c);
    var root :| IsServerRoot(byId, c, root) && IsSubtree(byId.Values, root, s);
    TopHasNoParent(es, root);
    var n: nat :| Climbs(Up(byId), c, root, n);
    ByIdKeys(es);
    SubtreeOfTopIsThread(byId, c, root, n, 0, s);
    ThreadOfIsThread(byId, c);
    ThreadIsUnique(byId, c, s, ThreadOf(byId, c));
  }

  /** What the server's transaction makes of a row: the target is resolved, keeping an earlier
      resolution, and every other resolved comment of the thread is cleared. */
  function ServerResolve(e: Entry, c: string, thread: set<string>, now: string, actorType: string,
                         actorId: string): Entry {
    if !e.kind.Comment? then e
    else if e.id == c then
      e.(resolvedAt := if e.resolvedAt.Some? then e.resolvedAt else Some(now),
         resolvedByType := if e.resolvedByType.Some? then e.resolvedByType else Some(actorType),
         resolvedById := if e.resolvedById.Some? then e.resolvedById else Some(actorId))
    else if e.id in thread && e.resolvedAt.Some? then
      e.(resolvedAt := None, resolvedByType := None, resolvedById := None)
    else e
  }

  /** The target ends up resolved by whoever resolved it first, and no field but the three of a resolution is
      ever written. */
  lemma ServerResolveStampsTarget(e: Entry, c: string, thread: set<string>, now: string, actorType: string,
                                  actorId: string)
    ensures var next := ServerResolve(e, c, thread, now, actorType, actorId);
      && next == e.(resolvedAt := next.resolvedAt, resolvedByType := next.resolvedByType,
                    resolvedById := next.resolvedById)
      && (e.kind.Activity? ==> next == e)
      && (e.kind.Comment? && e.id == c && e.resolvedAt.None? ==> next.resolvedAt == Some(now))
      && (e.kind.Comment? && e.id == c && e.resolvedByType.None? ==> next.resolvedByType == Some(actorType))
      && (e.kind.Comment? && e.id == c && e.resolvedById.None? ==> next.resolvedById == Some(actorId))
      && (e.id == c && e.resolvedAt.Some? ==> next.resolvedAt == e.resolvedAt)
      && (e.id == c && e.resolvedByType.Some? ==> next.resolvedByType == e.resolvedByType)
      && (e.id == c && e.resolvedById.Some? ==> next.resolvedById == e.resolvedById)
  {
  }

  /** Resolving again changes nothing: the first resolution stays, whoever asks later. */
  lemma ServerResolveIsIdempotent(e: Entry, c: string, thread: set<string>, now: string, later: string,
                                  actorType: string, actorId: string, otherType: string, otherId: string)
    ensures var once := ServerResolve(e, c, thread, now, actorType, actorId);
      ServerResolve(once, c, thread, later, otherType, otherId) == once
  {
  }

  lemma LoadedIsComment(es: seq<Entry>, e: Entry)
    requires DistinctIds(es) && e in es && e.id in ById(es)
    ensures e.kind.Comment?
  {
    ByIdKeys(es);
    SameIdSameEntry(es, e, ById(es)[e.id]);
  }

  lemma RowMirrors(e: Entry, c: string, thread: set<string>, now: string, serverNow: string, actorType: string,
                   actorId: string)
    requires now != "" && serverNow != "" && e.resolvedAt != Some("")
    requires e.id == c || e.id in thread ==> e.kind.Comment?
    ensures var client := ResolveOne(e, c, true, thread, now);
      var server := ServerResolve(e, c, thread, serverNow, actorType, actorId);
      (Resolved(client) <==> Resolved(server)) && (e.id != c ==> client == server)
  {
  }

  /** After the optimistic resolve the same comments are resolved as on the server, and every row
      but the target is the same. */
  lemma ResolveMirrorsServer(es: seq<Entry>, c: string, s: set<string>, now: string, serverNow: string,
                             actorType: string, actorId: string, i: nat)
    requires DistinctIds(es) && FullyLoaded(es) && c in ById(es) && !EntersCycle(Up(ById(es)), c)
    requires IsServerThread(ById(es), c, s) && now != "" && serverNow != ""
    requires i < |es| && forall e :: e in es ==> e.resolvedAt != Some("")
    ensures var client := ResolveAll(es, c, true, ThreadOf(ById(es), c), now)[i];
      var server := ServerResolve(es[i], c, s, serverNow, actorType, actorId);
      && (Resolved(client) <==> Resolved(server))
      && (es[i].id != c ==> client == server)
  {
    var e, thread := es[i], ThreadOf(ById(es), c);
    assert s == thread by { ServerFindsTheThread(es, c, s); }
    assert thread <= ById(es).Keys by { ThreadOfIsThread(ById(es), c); }
    assert e in es;
    if e.id in ById(es) {
      LoadedIsComment(es, e);
    }
    RowMirrors(e, c, thread, now, serverNow, actorType, actorId);
  }
}
