/** The breadth-first search for replies, and when it ends. */
module RowSearch {
  import opened Prelude
  import opened Timeline

  function CommentIds(es: seq<Entry>): set<string> {
    set e | e in es && e.kind.Comment? :: e.id
  }

  /** A comment whose parent is loaded; every other entry is top-level. */
  predicate IsReply(loaded: set<string>, e: Entry) {
    e.kind.Comment? && HasParent(e) && e.parentId.value in loaded
  }

  function TopLevel(loaded: set<string>, es: seq<Entry>): seq<Entry> {
    if es == [] then [] else
      var rest := TopLevel(loaded, es[..|es| - 1]);
      var e := es[|es| - 1];
      if IsReply(loaded, e) then rest else rest + [e]
  }

  /** The direct replies to `p`, in timeline order. */
  function Kids(loaded: set<string>, es: seq<Entry>, p: string): seq<Entry> {
    if es == [] then [] else
      var rest := Kids(loaded, es[..|es| - 1], p);
      var e := es[|es| - 1];
      if IsReply(loaded, e) && e.parentId.value == p then rest + [e] else rest
  }

  function Ids(es: seq<Entry>): seq<string> {
    seq(|es|, i requires 0 <= i < |es| => es[i].id)
  }

  /** A row's members: its entry, then its replies. */
  function Nodes(rootId: string, out: seq<Entry>): seq<string> {
    [rootId] + Ids(out)
  }

  /** The direct replies to each of `nodes` in turn. */
  function AllKids(loaded: set<string>, es: seq<Entry>, nodes: seq<string>): seq<Entry> {
    if nodes == [] then [] else
      AllKids(loaded, es, nodes[..|nodes| - 1]) + Kids(loaded, es, nodes[|nodes| - 1])
  }

  lemma {:induction false} KidsMembers(loaded: set<string>, es: seq<Entry>, p: string)
    ensures forall e :: e in Kids(loaded, es, p) <==> e in es && IsReply(loaded, e) && e.parentId.value == p
    ensures DistinctIds(es) ==> DistinctIds(Kids(loaded, es, p))
  {
    if es != [] {
      KidsMembers(loaded, es[..|es| - 1], p);
      SplitLast(es);
    }
  }

  /** The direct replies keep the order of the timeline. */
  lemma {:induction false} KidsFollow(loaded: set<string>, es: seq<Entry>, p: string)
    ensures Follows(es, Kids(loaded, es, p))
  {
    if es != [] {
      var front, e := es[..|es| - 1], es[|es| - 1];
      KidsFollow(loaded, front, p);
      KidsMembers(loaded, front, p);
      FollowsSnoc(front, Kids(loaded, front, p), e);
      SplitLast(es);
    }
  }

  lemma NodesConcat(rootId: string, a: seq<Entry>, b: seq<Entry>)
    ensures Nodes(rootId, a + b) == Nodes(rootId, a) + Ids(b)
  {
  }

  // ----- the search, step by step -----------------------------------------------------

  /** What is found once `n` nodes have been dequeued; the queue holds the nodes from the `n`-th on. */
  function Found(loaded: set<string>, es: seq<Entry>, rootId: string, n: nat): seq<Entry> {
    if n == 0 then [] else
      var before := Found(loaded, es, rootId, n - 1);
      if n - 1 <= |before| then before + Kids(loaded, es, Nodes(rootId, before)[n - 1]) else before
  }

  function NodesAt(loaded: set<string>, es: seq<Entry>, rootId: string, n: nat): seq<string> {
    Nodes(rootId, Found(loaded, es, rootId, n))
  }

  /** After `n` steps the queue is empty. */
  ghost predicate EndedAt(loaded: set<string>, es: seq<Entry>, rootId: string, n: nat) {
    n > |Found(loaded, es, rootId, n)|
  }

  ghost predicate Ends(loaded: set<string>, es: seq<Entry>, rootId: string) {
    exists n: nat :: EndedAt(loaded, es, rootId, n)
  }

  lemma {:induction false} FoundStays(loaded: set<string>, es: seq<Entry>, rootId: string, n: nat, m: nat)
    requires EndedAt(loaded, es, rootId, n) && n <= m
    ensures Found(loaded, es, rootId, m) == Found(loaded, es, rootId, n)
  {
    if n < m {
      FoundStays(loaded, es, rootId, n, m - 1);
    }
  }

  /** The search has one outcome. */
  lemma SearchIsUnique(loaded: set<string>, es: seq<Entry>, rootId: string, a: seq<Entry>, b: seq<Entry>)
    requires a == Found(loaded, es, rootId, |a| + 1) && b == Found(loaded, es, rootId, |b| + 1)
    ensures a == b
  {
    if |a| <= |b| {
      FoundStays(loaded, es, rootId, |a| + 1, |b| + 1);
    } else {
      FoundStays(loaded, es, rootId, |b| + 1, |a| + 1);
    }
  }

  // ----- chains of replies ---------------------------------------------------------------

  ghost predicate IsKid(loaded: set<string>, es: seq<Entry>, x: string, y: string) {
    y in Ids(Kids(loaded, es, x))
  }

  /** Each id of the chain is that of a direct reply to the one before. */
  ghost predicate IsChain(loaded: set<string>, es: seq<Entry>, chain: seq<string>) {
    forall i :: 0 < i < |chain| ==> IsKid(loaded, es, chain[i - 1], chain[i])
  }

  ghost predicate ChainFrom(loaded: set<string>, es: seq<Entry>, x: string, chain: seq<string>) {
    |chain| > 0 && chain[0] == x && IsChain(loaded, es, chain)
  }

  /** No chain of replies from `x` comes back to an id it has passed. */
  ghost predicate NoReturn(loaded: set<string>, es: seq<Entry>, x: string) {
    forall chain :: ChainFrom(loaded, es, x, chain) ==> NoDuplicates(chain)
  }

  // ----- a search that ends meets no cycle --------------------------------------------------

  /** The replies to the node at `i` stand behind it. */
  ghost predicate KidsBehind(loaded: set<string>, es: seq<Entry>, nodes: seq<string>, i: nat)
    requires i < |nodes|
  {
    forall y :: IsKid(loaded, es, nodes[i], y) ==> y in nodes[i + 1..]
  }

  lemma BehindStays(nodes: seq<string>, more: seq<string>, i: nat, y: string)
    requires i < |nodes| && y in nodes[i + 1..]
    ensures y in (nodes + more)[i + 1..]
  {
    assert (nodes + more)[i + 1..] == nodes[i + 1..] + more;
  }

  lemma {:induction false} DequeuedHaveKidsBehind(loaded: set<string>, es: seq<Entry>, rootId: string, n: nat, i: nat)
    requires i < n && i < |NodesAt(loaded, es, rootId, n)|
    ensures KidsBehind(loaded, es, NodesAt(loaded, es, rootId, n), i)
  {
    var before := Found(loaded, es, rootId, n - 1);
    var nodes := Nodes(rootId, before);
    if n - 1 <= |before| {
      var kids := Ids(Kids(loaded, es, nodes[n - 1]));
      NodesConcat(rootId, before, Kids(loaded, es, nodes[n - 1]));
      assert NodesAt(loaded, es, rootId, n) == nodes + kids;
      if i < n - 1 {
        DequeuedHaveKidsBehind(loaded, es, rootId, n - 1, i);
        forall y | IsKid(loaded, es, nodes[i], y)
          ensures y in (nodes + kids)[i + 1..]
        {
          BehindStays(nodes, kids, i, y);
        }
      } else {
        assert (nodes + kids)[i + 1..] == nodes[i + 1..] + kids;
      }
    } else {
      DequeuedHaveKidsBehind(loaded, es, rootId, n - 1, i);
    }
  }

  /** Along a chain the search moves on by at least one node a link. */
  lemma {:induction false} ChainAdvances(loaded: set<string>, es: seq<Entry>, nodes: seq<string>, chain: seq<string>,
                                         at: nat)
    returns (end: nat)
    requires forall i: nat :: i < |nodes| ==> KidsBehind(loaded, es, nodes, i)
    requires IsChain(loaded, es, chain) && |chain| > 0 && at < |nodes| && nodes[at] == chain[0]
    ensures at + |chain| - 1 <= end < |nodes| && nodes[end] == chain[|chain| - 1]
    decreases |chain|
  {
    end := at;
    if |chain| > 1 {
      assert KidsBehind(loaded, es, nodes, at) && IsKid(loaded, es, chain[0], chain[1]);
      var j :| 0 <= j < |nodes[at + 1..]| && nodes[at + 1..][j] == chain[1];
      end := ChainAdvances(loaded, es, nodes, chain[1..], at + 1 + j);
    }
  }

  lemma {:induction false} NoCycleAhead(loaded: set<string>, es: seq<Entry>, nodes: seq<string>, cycle: seq<string>,
                                        at: nat)
    requires forall i: nat :: i < |nodes| ==> KidsBehind(loaded, es, nodes, i)
    requires IsChain(loaded, es, cycle) && |cycle| > 1 && cycle[0] == cycle[|cycle| - 1]
    requires at < |nodes| && nodes[at] == cycle[0]
    ensures false
    decreases |nodes| - at
  {
    var end := ChainAdvances(loaded, es, nodes, cycle, at);
    NoCycleAhead(loaded, es, nodes, cycle, end);
  }

  lemma EndedHasNoReturn(loaded: set<string>, es: seq<Entry>, rootId: string, n: nat)
    requires EndedAt(loaded, es, rootId, n)
    ensures NoReturn(loaded, es, rootId)
  {
    var nodes := NodesAt(loaded, es, rootId, n);
    forall i: nat | i < |nodes|
      ensures KidsBehind(loaded, es, nodes, i)
    {
      DequeuedHaveKidsBehind(loaded, es, rootId, n, i);
    }
    forall chain | ChainFrom(loaded, es, rootId, chain)
      ensures NoDuplicates(chain)
    {
      forall i, j | 0 <= i < j < |chain|
        ensures chain[i] != chain[j]
      {
        if chain[i] == chain[j] {
          var at := ChainAdvances(loaded, es, nodes, chain[..i + 1], 0);
          NoCycleAhead(loaded, es, nodes, chain[i..j + 1], at);
        }
      }
    }
  }

  // ----- without a cycle the search ends ---------------------------------------------------------

  /** Every chain from `x` has at most `n` ids. */
  ghost predicate Short(loaded: set<string>, es: seq<Entry>, x: string, n: nat) {
    forall chain :: ChainFrom(loaded, es, x, chain) ==> |chain| <= n
  }

  lemma KidIsLoaded(loaded: set<string>, es: seq<Entry>, x: string, y: string)
    requires IsKid(loaded, es, x, y)
    ensures y in Ids(es)
  {
    var kids := Kids(loaded, es, x);
    var k :| 0 <= k < |kids| && Ids(kids)[k] == y;
    KidsMembers(loaded, es, x);
    assert kids[k] in es;
    var m :| 0 <= m < |es| && es[m] == kids[k];
    assert Ids(es)[m] == y;
  }

  lemma NoReturnIsShort(loaded: set<string>, es: seq<Entry>, x: string)
    requires NoReturn(loaded, es, x)
    ensures Short(loaded, es, x, |es| + 1)
  {
    forall chain | ChainFrom(loaded, es, x, chain)
      ensures |chain| <= |es| + 1
    {
      var rest := chain[1..];
      forall y | y in rest
        ensures y in Ids(es)
      {
        var k :| 0 <= k < |rest| && rest[k] == y;
        assert IsKid(loaded, es, chain[k], chain[k + 1]);
        KidIsLoaded(loaded, es, chain[k], y);
      }
      DistinctFit(rest, Ids(es));
    }
  }

  lemma ShortKids(loaded: set<string>, es: seq<Entry>, x: string, y: string, n: nat)
    requires Short(loaded, es, x, n) && IsKid(loaded, es, x, y)
    ensures n > 0 && Short(loaded, es, y, n - 1)
  {
    assert ChainFrom(loaded, es, x, [x]);
    forall chain | ChainFrom(loaded, es, y, chain)
      ensures |chain| <= n - 1
    {
      assert ChainFrom(loaded, es, x, [x] + chain);
    }
  }

  /** The number of nodes the search dequeues from `x` on, in at most `n` levels. */
  function Size(loaded: set<string>, es: seq<Entry>, x: string, n: nat): nat
    decreases n, 0
  {
    if n == 0 then 0 else 1 + Sizes(loaded, es, Ids(Kids(loaded, es, x)), n - 1)
  }

  function Sizes(loaded: set<string>, es: seq<Entry>, nodes: seq<string>, n: nat): nat
    decreases n, |nodes|
  {
    if |nodes| == 0 then 0 else Size(loaded, es, nodes[0], n) + Sizes(loaded, es, nodes[1..], n)
  }

  lemma {:induction false} SizesConcat(loaded: set<string>, es: seq<Entry>, a: seq<string>, b: seq<string>, n: nat)
    ensures Sizes(loaded, es, a + b, n) == Sizes(loaded, es, a, n) + Sizes(loaded, es, b, n)
    decreases |a|
  {
    if a == [] {
      assert a + b == b;
    } else {
      assert (a + b)[1..] == a[1..] + b;
      SizesConcat(loaded, es, a[1..], b, n);
    }
  }

  ghost predicate AllShort(loaded: set<string>, es: seq<Entry>, nodes: seq<string>, n: nat) {
    forall x :: x in nodes ==> Short(loaded, es, x, n)
  }

  lemma {:induction false} SizeSettles(loaded: set<string>, es: seq<Entry>, x: string, n: nat)
    requires Short(loaded, es, x, n)
    ensures Size(loaded, es, x, n) == Size(loaded, es, x, n + 1)
    decreases n, 0
  {
    assert ChainFrom(loaded, es, x, [x]);
    var kids := Ids(Kids(loaded, es, x));
    forall y | y in kids
      ensures Short(loaded, es, y, n - 1)
    {
      ShortKids(loaded, es, x, y, n);
    }
    SizesSettle(loaded, es, kids, n - 1);
  }

  lemma {:induction false} SizesSettle(loaded: set<string>, es: seq<Entry>, nodes: seq<string>, n: nat)
    requires AllShort(loaded, es, nodes, n)
    ensures Sizes(loaded, es, nodes, n) == Sizes(loaded, es, nodes, n + 1)
    decreases n, |nodes|
  {
    if |nodes| > 0 {
      SizeSettles(loaded, es, nodes[0], n);
      SizesSettle(loaded, es, nodes[1..], n);
    }
  }

  /** One step: the node dequeued counts for itself and for the replies it queues. */
  lemma StepShrinks(loaded: set<string>, es: seq<Entry>, queue: seq<string>, n: nat)
    requires AllShort(loaded, es, queue, n) && |queue| > 0
    ensures var next := queue[1..] + Ids(Kids(loaded, es, queue[0]));
      AllShort(loaded, es, next, n) && Sizes(loaded, es, queue, n) == 1 + Sizes(loaded, es, next, n)
  {
    var x := queue[0];
    var kids := Ids(Kids(loaded, es, x));
    assert ChainFrom(loaded, es, x, [x]) && Short(loaded, es, x, n);
    forall y | y in kids
      ensures Short(loaded, es, y, n - 1)
    {
      ShortKids(loaded, es, x, y, n);
    }
    SizesSettle(loaded, es, kids, n - 1);
    SizesConcat(loaded, es, queue[1..], kids, n);
  }

  /** `n` of the nodes are dequeued, and the rest of the search is as long as the queue says. */
  ghost predicate OnTrack(loaded: set<string>, es: seq<Entry>, rootId: string, found: seq<Entry>, n: nat, levels: nat) {
    var nodes := Nodes(rootId, found);
    && n <= |nodes| && AllShort(loaded, es, nodes[n..], levels)
    && n + Sizes(loaded, es, nodes[n..], levels) == Size(loaded, es, rootId, levels)
  }

  lemma NextQueue(rootId: string, found: seq<Entry>, kids: seq<Entry>, n: nat)
    requires n <= |found|
    ensures Nodes(rootId, found + kids)[n + 1..] == Nodes(rootId, found)[n..][1..] + Ids(kids)
  {
    NodesConcat(rootId, found, kids);
  }

  lemma StepStaysOnTrack(loaded: set<string>, es: seq<Entry>, rootId: string, found: seq<Entry>, n: nat, levels: nat)
    requires OnTrack(loaded, es, rootId, found, n, levels) && n <= |found|
    ensures OnTrack(loaded, es, rootId, found + Kids(loaded, es, Nodes(rootId, found)[n]), n + 1, levels)
  {
    var nodes := Nodes(rootId, found);
    assert nodes[n] == nodes[n..][0];
    StepShrinks(loaded, es, nodes[n..], levels);
    NextQueue(rootId, found, Kids(loaded, es, nodes[n]), n);
  }

  lemma {:induction false} StaysOnTrack(loaded: set<string>, es: seq<Entry>, rootId: string, n: nat, levels: nat)
    requires Short(loaded, es, rootId, levels)
    ensures EndedAt(loaded, es, rootId, n) || OnTrack(loaded, es, rootId, Found(loaded, es, rootId, n), n, levels)
  {
    if n == 0 {
      assert Nodes(rootId, [])[0..] == [rootId] && [rootId][1..] == [];
      assert Sizes(loaded, es, [rootId], levels) == Size(loaded, es, rootId, levels) + Sizes(loaded, es, [], levels);
    } else {
      StaysOnTrack(loaded, es, rootId, n - 1, levels);
      var before := Found(loaded, es, rootId, n - 1);
      if n - 1 <= |before| {
        StepStaysOnTrack(loaded, es, rootId, before, n - 1, levels);
      }
    }
  }

  /** The search for replies ends exactly when no chain of replies comes back to an id it has passed. */
  lemma SearchEndsExactlyWhenNoReturn(loaded: set<string>, es: seq<Entry>, rootId: string)
    ensures Ends(loaded, es, rootId) <==> NoReturn(loaded, es, rootId)
  {
    if Ends(loaded, es, rootId) {
      var n: nat :| EndedAt(loaded, es, rootId, n);
      EndedHasNoReturn(loaded, es, rootId, n);
    }
    if NoReturn(loaded, es, rootId) {
      NoReturnIsShort(loaded, es, rootId);
      var n := Size(loaded, es, rootId, |es| + 1) + 1;
      StaysOnTrack(loaded, es, rootId, n, |es| + 1);
      assert EndedAt(loaded, es, rootId, n);
    }
  }

  /** A repeated id: with a top-level comment and a reply to it under the same id the search never ends. */
  lemma RepeatedIdNeverEnds(a: Entry, b: Entry)
    requires a.kind.Comment? && b.kind.Comment? && a.id == b.id != "" && !HasParent(a) && b.parentId == Some(a.id)
    ensures var loaded := CommentIds([a, b]); !IsReply(loaded, a) && !Ends(loaded, [a, b], a.id)
  {
    var es := [a, b];
    var loaded := CommentIds(es);
    assert es[0] in es && es[1] in es;
    KidsMembers(loaded, es, a.id);
    var kids := Kids(loaded, es, a.id);
    assert b in kids;
    var k :| 0 <= k < |kids| && kids[k] == b;
    assert Ids(kids)[k] == a.id;
    var chain := [a.id, a.id];
    assert ChainFrom(loaded, es, a.id, chain) && chain[0] == chain[1];
    SearchEndsExactlyWhenNoReturn(loaded, es, a.id);
  }
}
