/** Comment threads: the parent relation, the walk that resolving uses, and the
    cascade that deleting uses. */
module Threads {
  import opened Prelude
  import opened Timeline

  // ----- the parent relation ------------------------------------------------

  /** Each loaded comment whose parent is loaded, mapped to that parent. */
  function Up(byId: map<string, Entry>): map<string, string> {
    map x | x in byId && HasParent(byId[x]) && byId[x].parentId.value in byId :: byId[x].parentId.value
  }

  ghost predicate SelfKeyed(byId: map<string, Entry>) {
    forall x :: x in byId ==> byId[x].id == x
  }

  /** `b` is the `n`-th ancestor of `a`. */
  ghost predicate Climbs(up: map<string, string>, a: string, b: string, n: nat)
    decreases n
  {
    if n == 0 then a == b else a in up && Climbs(up, up[a], b, n - 1)
  }

  ghost predicate ProperlyClimbs(up: map<string, string>, a: string, b: string) {
    exists n: nat :: n > 0 && Climbs(up, a, b, n)
  }

  ghost predicate Reaches(up: map<string, string>, a: string, b: string) {
    exists n: nat :: Climbs(up, a, b, n)
  }

  /** Nothing leaves `s` along a parent link, in either direction. */
  ghost predicate Closed(up: map<string, string>, s: set<string>) {
    forall x :: x in up ==> (x in s <==> up[x] in s)
  }

  /** `t` is the weakly connected component of `c` among the loaded comments:
      the least set holding `c` that no parent link leaves. */
  ghost predicate IsThread(byId: map<string, Entry>, c: string, t: set<string>) {
    && c in t
    && t <= byId.Keys
    && Closed(Up(byId), t)
    && forall s: set<string> :: c in s && Closed(Up(byId), s) ==> t <= s
  }

  /** Every child of a member is a member. */
  ghost predicate ChildClosed(es: set<Entry>, s: set<string>) {
    forall e :: e in es && HasParent(e) && e.parentId.value in s ==> e.id in s
  }

  /** `s` is `c` with everything below it: the least child-closed set holding `c`. */
  ghost predicate IsSubtree(es: set<Entry>, c: string, s: set<string>) {
    && c in s
    && ChildClosed(es, s)
    && forall s': set<string> :: c in s' && ChildClosed(es, s') ==> s <= s'
  }

  lemma {:induction false} ClimbStaysClosed(up: map<string, string>, s: set<string>, a: string, b: string, n: nat)
    requires Closed(up, s) && Climbs(up, a, b, n)
    ensures a in s <==> b in s
    decreases n
  {
    if n > 0 {
      ClimbStaysClosed(up, s, up[a], b, n - 1);
    }
  }

  lemma {:induction false} ClimbConcat(up: map<string, string>, a: string, b: string, c: string, m: nat, n: nat)
    requires Climbs(up, a, b, m) && Climbs(up, b, c, n)
    ensures Climbs(up, a, c, m + n)
    decreases m
  {
    if m > 0 {
      ClimbConcat(up, up[a], b, c, m - 1, n);
    }
  }

  /** A comment is in the subtree of `root` exactly if its parent chain passes `root`. */
  lemma {:induction false} ClimberInSubtree(byId: map<string, Entry>, root: string, s: set<string>, x: string, n: nat)
    requires SelfKeyed(byId)
    requires root in s && ChildClosed(byId.Values, s) && Climbs(Up(byId), x, root, n)
    ensures x in s
    decreases n
  {
    if n > 0 {
      ClimberInSubtree(byId, root, s, Up(byId)[x], n - 1);
      assert byId[x] in byId.Values;
    }
  }

  lemma SubtreeMembersClimb(byId: map<string, Entry>, root: string, s: set<string>)
    requires SelfKeyed(byId)
    requires root in byId && IsSubtree(byId.Values, root, s)
    ensures s <= byId.Keys
    ensures forall x :: x in s ==> Reaches(Up(byId), x, root)
  {
    var up := Up(byId);
    var climbers := set x | x in byId && Reaches(up, x, root);
    assert Climbs(up, root, root, 0);
    forall e | e in byId.Values && HasParent(e) && e.parentId.value in climbers
      ensures e.id in climbers
    {
      var n: nat :| Climbs(up, e.parentId.value, root, n);
      assert byId[e.id] == e;
      assert Climbs(up, e.id, root, n + 1);
    }
    assert ChildClosed(byId.Values, climbers);
  }

  /** Climbing as far as possible and expanding down again gives the whole thread. */
  lemma SubtreeOfTopIsThread(byId: map<string, Entry>, c: string, root: string, n: nat, k: nat, s: set<string>)
    requires SelfKeyed(byId)
    requires c in byId && root in byId && Climbs(Up(byId), c, root, n)
    requires root !in Up(byId) || (k > 0 && Climbs(Up(byId), root, root, k))
    requires IsSubtree(byId.Values, root, s)
    ensures IsThread(byId, c, s)
  {
    var up := Up(byId);
    SubtreeMembersClimb(byId, root, s);
    ClimberInSubtree(byId, root, s, c, n);
    forall x | x in up
      ensures x in s <==> up[x] in s
    {
      assert byId[x] in byId.Values;
      if x in s {
        var m: nat :| Climbs(up, x, root, m);
        ClimberInSubtree(byId, root, s, up[x], if m > 0 then m - 1 else k - 1);
      }
    }
    forall s': set<string> | c in s' && Closed(up, s')
      ensures s <= s'
    {
      ClimbStaysClosed(up, s', c, root, n);
      forall x | x in s
        ensures x in s'
      {
        var m: nat :| Climbs(up, x, root, m);
        ClimbStaysClosed(up, s', x, root, m);
      }
    }
  }

  /** Threads partition the comments: sharing a member means being the same thread. */
  lemma ThreadsPartition(byId: map<string, Entry>, c: string, tc: set<string>, d: string, td: set<string>)
    requires IsThread(byId, c, tc) && IsThread(byId, d, td)
    ensures d in tc <==> tc == td
    ensures tc == td || tc !! td
  {
    var up := Up(byId);
    forall x, tx, y, ty | IsThread(byId, x, tx) && IsThread(byId, y, ty) && x !in ty
      ensures tx !! ty
    {
      assert Closed(up, tx - ty);
      assert tx <= tx - ty;
    }
    if d in tc {
      assert td <= tc;
      assert c in td;
      assert tc <= td;
    }
  }

  lemma ThreadIsUnique(byId: map<string, Entry>, c: string, s: set<string>, t: set<string>)
    requires IsThread(byId, c, s) && IsThread(byId, c, t)
    ensures s == t
  {
    assert s <= t && t <= s;
  }

  /** The thread of a loaded comment, as the intersection of the sets no link leaves. */
  ghost function ThreadOf(byId: map<string, Entry>, c: string): set<string> {
    set x | x in byId && forall s: set<string> :: c in s && Closed(Up(byId), s) ==> x in s
  }

  lemma ThreadOfIsThread(byId: map<string, Entry>, c: string)
    requires c in byId
    ensures IsThread(byId, c, ThreadOf(byId, c))
  {
    assert Closed(Up(byId), byId.Keys);
  }

  lemma SameThreadIsSymmetric(byId: map<string, Entry>, a: string, b: string)
    requires a in byId && b in byId && b in ThreadOf(byId, a)
    ensures a in ThreadOf(byId, b)
  {
    ThreadOfIsThread(byId, a);
    ThreadOfIsThread(byId, b);
    ThreadsPartition(byId, a, ThreadOf(byId, a), b, ThreadOf(byId, b));
  }

  // ----- collecting a thread ------------------------------------------------

  function ChildList(children: map<string, seq<string>>, p: string): seq<string> {
    if p in children then children[p] else []
  }

  ghost predicate ListsChildren(byId: map<string, Entry>, list: seq<string>, p: string) {
    forall x :: x in list <==> x in byId && ChildOf(byId[x], p)
  }

  ghost predicate Grouped(byId: map<string, Entry>, children: map<string, seq<string>>) {
    forall p :: ListsChildren(byId, ChildList(children, p), p)
  }

  /** Every comment id in the thread of `commentId`. For an id that is not a loaded
      comment the walk up does not start, and the subtree below the id is returned. */
  method CollectThreadCommentIds(entries: seq<Entry>, commentId: string) returns (ids: set<string>)
    ensures commentId in ById(entries) ==> IsThread(ById(entries), commentId, ids)
    ensures commentId !in ById(entries) ==> IsSubtree(ById(entries).Values, commentId, ids)
  {
    var byId, order := IndexComments(entries);
    ByIdKeys(entries);
    var rootId, steps, k := WalkToRoot(byId, commentId);
    var children := GroupByParent(byId, order);
    ids := ExpandDown(byId, children, rootId);
    if commentId in byId {
      SubtreeOfTopIsThread(byId, commentId, rootId, steps, k, ids);
    }
  }

  method IndexComments(entries: seq<Entry>) returns (byId: map<string, Entry>, order: seq<string>)
    ensures byId == ById(entries)
    ensures forall x :: x in order <==> x in byId
  {
    byId, order := map[], [];
    for i := 0 to |entries|
      invariant byId == ById(entries[..i])
      invariant forall x :: x in order <==> x in byId
    {
      assert entries[..i + 1][..i] == entries[..i];
      var e := entries[i];
      if e.kind.Comment? {
        if e.id !in byId { order := order + [e.id]; }
        byId := byId[e.id := e];
      }
    }
    assert entries[..|entries|] == entries;
  }

  /** Follows parent links until the parent is not loaded or an id comes round again. */
  method WalkToRoot(byId: map<string, Entry>, commentId: string)
    returns (rootId: string, ghost steps: nat, ghost k: nat)
    ensures commentId !in byId ==> rootId == commentId
    ensures commentId in byId ==> rootId in byId
    ensures Climbs(Up(byId), commentId, rootId, steps)
    ensures rootId !in Up(byId) || (k > 0 && Climbs(Up(byId), rootId, rootId, k))
  {
    ghost var up := Up(byId);
    rootId, steps, k := commentId, 0, 0;
    var guard: set<string> := {};
    while rootId in byId && HasParent(byId[rootId]) && byId[rootId].parentId.value in byId && rootId !in guard
      invariant commentId in byId <==> rootId in byId
      invariant commentId !in byId ==> rootId == commentId
      invariant guard <= byId.Keys
      invariant Climbs(up, commentId, rootId, steps)
      invariant forall g :: g in guard ==> ProperlyClimbs(up, g, rootId)
      decreases byId.Keys - guard
    {
      var cur := rootId;
      guard := guard + {cur};
      rootId := byId[cur].parentId.value;
      assert Climbs(up, cur, rootId, 1) by { assert Climbs(up, rootId, rootId, 0); }
      ClimbConcat(up, commentId, cur, rootId, steps, 1);
      steps := steps + 1;
      forall g | g in guard
        ensures ProperlyClimbs(up, g, rootId)
      {
        if g != cur {
          var m: nat :| m > 0 && Climbs(up, g, cur, m);
          ClimbConcat(up, g, cur, rootId, m, 1);
        }
      }
    }
    if rootId in up {
      k :| k > 0 && Climbs(up, rootId, rootId, k);
    }
  }

  method GroupByParent(byId: map<string, Entry>, order: seq<string>) returns (children: map<string, seq<string>>)
    requires forall x :: x in order <==> x in byId
    requires SelfKeyed(byId)
    ensures Grouped(byId, children)
  {
    children := map[];
    for i := 0 to |order|
      invariant forall p, x :: x in ChildList(children, p) <==> x in order[..i] && ChildOf(byId[x], p)
    {
      var e := byId[order[i]];
      assert order[..i + 1] == order[..i] + [e.id];
      if HasParent(e) {
        var before := children;
        var p0 := e.parentId.value;
        children := children[p0 := ChildList(children, p0) + [e.id]];
        assert ChildList(children, p0) == ChildList(before, p0) + [e.id];
        assert forall p :: p != p0 ==> ChildList(children, p) == ChildList(before, p);
      }
    }
    assert order[..|order|] == order;
  }

  /** Members whose children have all been added; the others wait on the stack. */
  ghost predicate Expanded(byId: map<string, Entry>, ids: set<string>, waiting: seq<string>) {
    forall x :: x in byId && HasParent(byId[x]) && byId[x].parentId.value in ids && byId[x].parentId.value !in waiting
      ==> x in ids
  }

  ghost predicate Below(es: set<Entry>, rootId: string, ids: set<string>) {
    forall s: set<string> :: rootId in s && ChildClosed(es, s) ==> ids <= s
  }

  lemma BelowGrows(byId: map<string, Entry>, rootId: string, ids: set<string>, id: string, ids': set<string>)
    requires SelfKeyed(byId) && Below(byId.Values, rootId, ids) && id in ids
    requires forall x :: x in ids' ==> x in ids || (x in byId && ChildOf(byId[x], id))
    ensures Below(byId.Values, rootId, ids')
  {
    forall s: set<string> | rootId in s && ChildClosed(byId.Values, s)
      ensures ids' <= s
    {
      forall x | x in ids'
        ensures x in s
      {
        if x !in ids {
          assert byId[x] in byId.Values;
        }
      }
    }
  }

  /** Marks the unseen ones among `kids` and pushes them. */
  method PushUnseen(kids: seq<string>, ids0: set<string>, stack0: seq<string>)
    returns (ids: set<string>, stack: seq<string>)
    ensures ids == ids0 + set x | x in kids
    ensures forall x :: x in stack <==> x in stack0 || (x in kids && x !in ids0)
    ensures ids == ids0 ==> stack == stack0
  {
    ids, stack := ids0, stack0;
    for i := 0 to |kids|
      invariant ids == ids0 + set x | x in kids[..i]
      invariant forall x :: x in stack <==> x in stack0 || (x in kids[..i] && x !in ids0)
      invariant ids == ids0 ==> stack == stack0
    {
      var child := kids[i];
      assert kids[..i + 1] == kids[..i] + [child];
      if child !in ids {
        ids := ids + {child};
        stack := stack + [child];
      }
    }
    assert kids[..|kids|] == kids;
  }

  lemma ExpandedAfter(byId: map<string, Entry>, id: string, kids: seq<string>,
                      ids0: set<string>, stack0: seq<string>, ids: set<string>, stack: seq<string>)
    requires Expanded(byId, ids0, stack0 + [id])
    requires ListsChildren(byId, kids, id)
    requires ids == ids0 + set x | x in kids
    requires forall x :: x in stack <==> x in stack0 || (x in kids && x !in ids0)
    ensures Expanded(byId, ids, stack)
  {
  }

  method ExpandDown(byId: map<string, Entry>, children: map<string, seq<string>>, rootId: string)
    returns (ids: set<string>)
    requires SelfKeyed(byId)
    requires Grouped(byId, children)
    ensures IsSubtree(byId.Values, rootId, ids)
  {
    ids := {rootId};
    var stack := [rootId];
    while |stack| > 0
      invariant rootId in ids && ids <= byId.Keys + {rootId}
      invariant forall x :: x in stack ==> x in ids
      invariant Expanded(byId, ids, stack)
      invariant Below(byId.Values, rootId, ids)
      decreases byId.Keys + {rootId} - ids, |stack|
    {
      var id := stack[|stack| - 1];
      SplitLast(stack);
      stack := stack[..|stack| - 1];
      var kids := ChildList(children, id);
      assert ListsChildren(byId, kids, id);
      ghost var ids0, stack0 := ids, stack;
      ids, stack := PushUnseen(kids, ids, stack);
      assert Below(byId.Values, rootId, ids) by {
        BelowGrows(byId, rootId, ids0, id, ids);
      }
      ExpandedAfter(byId, id, kids, ids0, stack0, ids, stack);
    }
  }

  // ----- deleting a comment ---------------------------------------------------

  /** The fixpoint loop of the optimistic delete: sweep the timeline until a sweep adds nothing. */
  method CascadeDelete(prev: seq<Entry>, commentId: string) returns (toRemove: set<string>)
    ensures IsSubtree(Elements(prev), commentId, toRemove)
  {
    toRemove := {commentId};
    var changed := true;
    while changed
      invariant commentId in toRemove && toRemove <= {commentId} + IdSet(prev)
      invariant !changed ==> ChildClosed(Elements(prev), toRemove)
      invariant Below(Elements(prev), commentId, toRemove)
      decreases {commentId} + IdSet(prev) - toRemove, changed
    {
      changed := false;
      ghost var before := toRemove;
      for i := 0 to |prev|
        invariant before <= toRemove <= {commentId} + IdSet(prev)
        invariant changed <==> toRemove != before
        invariant !changed ==> forall e :: e in prev[..i] && HasParent(e) && e.parentId.value in toRemove ==>
          e.id in toRemove
        invariant Below(Elements(prev), commentId, toRemove)
      {
        var e := prev[i];
        if HasParent(e) && e.parentId.value in toRemove && e.id !in toRemove {
          assert e in Elements(prev);
          toRemove := toRemove + {e.id};
          changed := true;
        }
      }
      assert prev[..|prev|] == prev;
    }
  }

  method OptimisticDelete(prev: seq<Entry>, commentId: string) returns (next: seq<Entry>, toRemove: set<string>)
    ensures IsSubtree(Elements(prev), commentId, toRemove)
    ensures next == Without(prev, toRemove)
  {
    toRemove := CascadeDelete(prev, commentId);
    next := Without(prev, toRemove);
  }

  /** Nothing that survives a delete was a child of something removed. */
  lemma SurvivorsKeepTheirParents(prev: seq<Entry>, commentId: string, gone: set<string>, e: Entry)
    requires IsSubtree(Elements(prev), commentId, gone)
    ensures e in Without(prev, gone) && HasParent(e) ==> e.parentId.value !in gone
  {
    WithoutMembers(prev, gone);
    assert e in Elements(prev) <==> e in prev;
  }

  // ----- resolving a comment ----------------------------------------------------

  predicate Resolved(e: Entry) {
    Truthy(e.resolvedAt)
  }

  function ResolveOne(e: Entry, commentId: string, resolved: bool, threadIds: set<string>, now: string): Entry {
    if e.id == commentId then
      e.(resolvedAt := if resolved then Some(now) else None,
         resolvedByType := if resolved then e.resolvedByType else None,
         resolvedById := if resolved then e.resolvedById else None)
    else if resolved && Resolved(e) && e.id in threadIds then
      e.(resolvedAt := None, resolvedByType := None, resolvedById := None)
    else e
  }

  function ResolveAll(es: seq<Entry>, commentId: string, resolved: bool, threadIds: set<string>,
                      now: string): seq<Entry> {
    seq(|es|, i requires 0 <= i < |es| => ResolveOne(es[i], commentId, resolved, threadIds, now))
  }

  /** The optimistic resolve or unresolve: the thread is only collected for a resolve. */
  method OptimisticResolve(entries: seq<Entry>, commentId: string, resolved: bool, now: string)
    returns (next: seq<Entry>)
    ensures !resolved ==> next == ResolveAll(entries, commentId, false, {}, now)
    ensures resolved && commentId in ById(entries) ==>
      next == ResolveAll(entries, commentId, true, ThreadOf(ById(entries), commentId), now)
    ensures resolved && commentId !in ById(entries) ==> exists below ::
      IsSubtree(ById(entries).Values, commentId, below) && next == ResolveAll(entries, commentId, true, below, now)
  {
    var threadIds: set<string> := {};
    if resolved {
      threadIds := CollectThreadCommentIds(entries, commentId);
      if commentId in ById(entries) {
        ThreadOfIsThread(ById(entries), commentId);
        ThreadIsUnique(ById(entries), commentId, threadIds, ThreadOf(ById(entries), commentId));
      }
    }
    next := [];
    for i := 0 to |entries|
      invariant |next| == i
      invariant forall j :: 0 <= j < i ==> next[j] == ResolveOne(entries[j], commentId, resolved, threadIds, now)
    {
      next := next + [ResolveOne(entries[i], commentId, resolved, threadIds, now)];
    }
    assert next == ResolveAll(entries, commentId, resolved, threadIds, now);
  }

  /** One resolve or unresolve may turn `es` into `next`. */
  ghost predicate ResolveStep(es: seq<Entry>, next: seq<Entry>) {
    exists c: string, resolved: bool, t: set<string>, now: string ::
      && now != ""
      && next == ResolveAll(es, c, resolved, t, now)
      && (resolved && c in ById(es) ==> t == ThreadOf(ById(es), c))
  }

  ghost predicate SameShape(a: seq<Entry>, b: seq<Entry>) {
    && |a| == |b|
    && forall i :: 0 <= i < |a| ==> a[i].kind == b[i].kind && a[i].id == b[i].id && a[i].parentId == b[i].parentId
  }

  lemma {:induction false} SameShapeSameLinks(a: seq<Entry>, b: seq<Entry>)
    requires SameShape(a, b)
    ensures ById(a).Keys == ById(b).Keys
    ensures forall x :: x in ById(a) ==> ById(a)[x].parentId == ById(b)[x].parentId
  {
    if a != [] {
      SameShapeSameLinks(a[..|a| - 1], b[..|b| - 1]);
    }
  }

  lemma SameShapeSameThreads(a: seq<Entry>, b: seq<Entry>, c: string)
    requires SameShape(a, b)
    ensures ThreadOf(ById(a), c) == ThreadOf(ById(b), c)
  {
    SameShapeSameLinks(a, b);
    assert Up(ById(a)) == Up(ById(b));
  }

  predicate TwoResolved(a: Entry, b: Entry) {
    a.kind.Comment? && b.kind.Comment? && Resolved(a) && Resolved(b)
  }

  /** Entries `i` and `j` are two resolved comments of one thread. */
  ghost predicate Conflict(es: seq<Entry>, i: nat, j: nat)
    requires i < |es| && j < |es|
  {
    i != j && TwoResolved(es[i], es[j]) && es[j].id in ThreadOf(ById(es), es[i].id)
  }

  ghost predicate AtMostOneResolved(es: seq<Entry>) {
    forall i: nat, j: nat :: i < |es| && j < |es| ==> !Conflict(es, i, j)
  }

  /** Resolving a loaded comment makes it the only resolved comment of its thread
      and touches no entry outside the thread. */
  lemma ResolveIsSole(es: seq<Entry>, c: string, now: string, i: nat)
    requires DistinctIds(es) && c in ById(es) && now != "" && i < |es|
    ensures var t := ThreadOf(ById(es), c);
      var next := ResolveAll(es, c, true, t, now);
      && (es[i].id in t ==> (Resolved(next[i]) <==> next[i].id == c))
      && (es[i].id !in t ==> next[i] == es[i])
  {
    ThreadOfIsThread(ById(es), c);
  }

  /** Nothing but the three resolution fields is ever rewritten. A resolve stamps its comment and keeps who
      resolved it; it clears all three fields of the other resolved comments of the thread. */
  lemma ResolveRewritesResolutions(es: seq<Entry>, c: string, t: set<string>, now: string, i: nat)
    requires i < |es|
    ensures var was, next := es[i], ResolveAll(es, c, true, t, now)[i];
      && next == was.(resolvedAt := next.resolvedAt, resolvedByType := next.resolvedByType,
                      resolvedById := next.resolvedById)
      && (if was.id == c then
            next.resolvedAt == Some(now)
            && next.resolvedByType == was.resolvedByType && next.resolvedById == was.resolvedById
          else if was.id in t && Truthy(was.resolvedAt) then
            next.resolvedAt.None? && next.resolvedByType.None? && next.resolvedById.None?
          else next == was)
  {
  }

  /** Unresolving clears all three fields of the one comment and touches nothing else. */
  lemma UnresolveClearsOnlyItself(es: seq<Entry>, c: string, t: set<string>, now: string, i: nat)
    requires i < |es|
    ensures var was, next := es[i], ResolveAll(es, c, false, t, now)[i];
      next == if was.id == c then was.(resolvedAt := None, resolvedByType := None, resolvedById := None) else was
  {
  }

  lemma ResolveKeepsSingle(es: seq<Entry>, c: string, resolved: bool, t: set<string>, now: string)
    requires DistinctIds(es) && AtMostOneResolved(es)
    requires resolved && c in ById(es) ==> t == ThreadOf(ById(es), c)
    ensures AtMostOneResolved(ResolveAll(es, c, resolved, t, now))
  {
    var next := ResolveAll(es, c, resolved, t, now);
    forall i: nat, j: nat | i < |next| && j < |next|
      ensures !Conflict(next, i, j)
    {
      assert !Conflict(es, i, j);
      NoConflictAfter(es, c, resolved, t, now, i, j);
    }
  }

  lemma NoConflictAfter(es: seq<Entry>, c: string, resolved: bool, t: set<string>, now: string, i: nat, j: nat)
    requires i < |es| && j < |es| && DistinctIds(es) && !Conflict(es, i, j)
    requires resolved && c in ById(es) ==> t == ThreadOf(ById(es), c)
    ensures !Conflict(ResolveAll(es, c, resolved, t, now), i, j)
  {
    var next := ResolveAll(es, c, resolved, t, now);
    var thread := ThreadOf(ById(es), es[i].id);
    assert ThreadOf(ById(next), next[i].id) == thread by {
      ThreadAfterResolve(es, c, resolved, t, now, es[i].id);
    }
    assert i != j && TwoResolved(next[i], next[j]) ==> next[j].id !in thread by {
      if i != j && TwoResolved(next[i], next[j]) {
        ResolvedPairStaysApart(es, c, resolved, t, now, i, j);
      }
    }
  }

  /** Resolving changes no thread. */
  lemma ThreadAfterResolve(es: seq<Entry>, c: string, resolved: bool, t: set<string>, now: string, x: string)
    ensures ThreadOf(ById(ResolveAll(es, c, resolved, t, now)), x) == ThreadOf(ById(es), x)
  {
    SameShapeSameThreads(es, ResolveAll(es, c, resolved, t, now), x);
  }

  lemma ResolvedPairStaysApart(es: seq<Entry>, c: string, resolved: bool, t: set<string>, now: string, i: nat, j: nat)
    requires i < |es| && j < |es| && i != j && DistinctIds(es) && !Conflict(es, i, j)
    requires resolved && c in ById(es) ==> t == ThreadOf(ById(es), c)
    requires es[i].kind.Comment? && es[j].kind.Comment?
    requires Resolved(ResolveOne(es[i], c, resolved, t, now)) && Resolved(ResolveOne(es[j], c, resolved, t, now))
    ensures es[j].id !in ThreadOf(ById(es), es[i].id)
  {
    ByIdKeys(es);
    assert es[i] in es && es[j] in es;
    if resolved && es[j].id == c {
      if c in ThreadOf(ById(es), es[i].id) {
        SameThreadIsSymmetric(ById(es), es[i].id, c);
      }
    }
  }

  /** A run of resolves and unresolves. */
  ghost predicate ResolveRun(states: seq<seq<Entry>>) {
    |states| > 0 && forall k :: 0 <= k < |states| - 1 ==> ResolveStep(states[k], states[k + 1])
  }

  /** "At most one resolved comment per thread" holds throughout every run that starts with it. */
  lemma {:induction false} RunKeepsSingle(states: seq<seq<Entry>>, k: nat)
    requires ResolveRun(states) && k < |states|
    requires DistinctIds(states[0]) && AtMostOneResolved(states[0])
    ensures DistinctIds(states[k]) && AtMostOneResolved(states[k])
  {
    if k > 0 {
      RunKeepsSingle(states, k - 1);
      var es, next := states[k - 1], states[k];
      assert ResolveStep(es, states[k - 1 + 1]);
      var c, resolved, t, now :|
        && now != ""
        && next == ResolveAll(es, c, resolved, t, now)
        && (resolved && c in ById(es) ==> t == ThreadOf(ById(es), c));
      ResolveKeepsSingle(es, c, resolved, t, now);
    }
  }
}
