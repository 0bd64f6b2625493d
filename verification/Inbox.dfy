/** The inbox list: one entry per issue, newest first, and how archiving and reading act on it. */
module Inbox {
  import opened Prelude
  import opened InboxItems

  // ----- one entry per key ----------------------------------------------------------------

  /** The keys in the order they first appear. */
  function Keys(items: seq<InboxItem>): seq<string> {
    if |items| == 0 then [] else
      var front, k := Keys(items[..|items| - 1]), Key(items[|items| - 1]);
      if k in front then front else front + [k]
  }

  function GroupOf(items: seq<InboxItem>, k: string): seq<InboxItem> {
    Filter(items, HasKey(k))
  }

  function FirstComment(s: seq<InboxItem>): Option<string> {
    if |s| == 0 then None else
      var front := FirstComment(s[..|s| - 1]);
      if front.Some? then front
      else if Truthy(CommentOf(s[|s| - 1])) then CommentOf(s[|s| - 1]) else None
  }

  function WithComment(i: InboxItem, comment: string): InboxItem {
    i.(details := Some((if i.details.Some? then i.details.value else map[])["comment_id" := comment]))
  }

  /** The newest of a group, carrying a comment to jump to when it has none of its own. */
  function Represent(group: seq<InboxItem>): InboxItem
    requires |group| > 0
  {
    SortSorts(group);
    var sorted := Sort(group);
    var newest := sorted[0];
    var own := CommentOf(newest);
    var comment := if own.Some? then own else FirstComment(sorted);
    if Truthy(comment) && own != comment then WithComment(newest, comment.value) else newest
  }

  function Represents(items: seq<InboxItem>, keys: seq<string>): seq<InboxItem> {
    if |keys| == 0 then [] else
      var front, group := Represents(items, keys[..|keys| - 1]), GroupOf(items, keys[|keys| - 1]);
      if |group| == 0 then front else front + [Represent(group)]
  }

  function Active(items: seq<InboxItem>): seq<InboxItem> {
    Filter(items, Unarchived())
  }

  function Merged(active: seq<InboxItem>): seq<InboxItem> {
    Sort(Represents(active, Keys(active)))
  }

  function Deduplicate(items: seq<InboxItem>): seq<InboxItem> {
    Merged(Active(items))
  }

  method GroupByKey(active: seq<InboxItem>) returns (keys: seq<string>, groups: map<string, seq<InboxItem>>)
    ensures keys == Keys(active)
    ensures forall k :: k in keys <==> k in groups
    ensures forall k :: k in groups ==> groups[k] == GroupOf(active, k)
  {
    keys, groups := [], map[];
    for i := 0 to |active|
      invariant keys == Keys(active[..i])
      invariant forall k :: k in keys <==> k in groups
      invariant forall k :: k !in groups ==> GroupOf(active[..i], k) == []
      invariant forall k :: k in groups ==> groups[k] == GroupOf(active[..i], k)
    {
      var key := Key(active[i]);
      assert active[..i + 1] == active[..i] + [active[i]];
      forall k
        ensures GroupOf(active[..i + 1], k) ==
          if k == key then GroupOf(active[..i], k) + [active[i]] else GroupOf(active[..i], k)
      {
        FilterSnoc(active[..i], active[i], HasKey(k));
      }
      assert Keys(active[..i + 1]) == if key in keys then keys else keys + [key] by {
        DropLast(active[..i], active[i]);
      }
      if key !in groups {
        keys := keys + [key];
      }
      groups := groups[key := (if key in groups then groups[key] else []) + [active[i]]];
    }
    assert active[..|active|] == active;
  }

  method DeduplicateInboxItems(items: seq<InboxItem>) returns (merged: seq<InboxItem>)
    ensures merged == Deduplicate(items)
  {
    var active := Active(items);
    var keys, groups := GroupByKey(active);
    merged := [];
    for i := 0 to |keys|
      invariant merged == Represents(active, keys[..i])
    {
      assert keys[..i + 1][..i] == keys[..i];
      var group := groups[keys[i]];
      if |group| > 0 {
        merged := merged + [Represent(group)];
      }
    }
    assert keys[..|keys|] == keys;
    merged := Sort(merged);
  }

  /** A carried comment is the one then named; everything else about the item stays. */
  lemma CarriedCommentIsAdded(i: InboxItem, comment: string)
    ensures var r := WithComment(i, comment);
      && CommentOf(r) == Some(comment) && r == i.(details := r.details)
      && (r.details.Some? && r.details.value - {"comment_id"}
          == (if i.details.Some? then i.details.value else map[]) - {"comment_id"})
  {
  }

  // ----- what the representative is -----------------------------------------------------

  /** `n` is at position `j`, nothing is newer, and nothing before it is as new. */
  ghost predicate NewestAt(group: seq<InboxItem>, n: InboxItem, j: int) {
    && 0 <= j < |group| && group[j] == n
    && (forall k :: 0 <= k < j ==> group[k].createdAt < n.createdAt)
    && (forall k :: j <= k < |group| ==> group[k].createdAt <= n.createdAt)
  }

  /** `n` is the newest of the group, the earliest listed on a tie. */
  ghost predicate IsNewest(group: seq<InboxItem>, n: InboxItem) {
    exists j :: NewestAt(group, n, j)
  }

  lemma NewestSnoc(front: seq<InboxItem>, h: InboxItem, last: InboxItem)
    requires IsNewest(front, h)
    ensures IsNewest(front + [last], if h.createdAt >= last.createdAt then h else last)
  {
    var j :| NewestAt(front, h, j);
    if h.createdAt >= last.createdAt {
      assert NewestAt(front + [last], h, j);
    } else {
      assert NewestAt(front + [last], last, |front|);
    }
  }

  lemma {:induction false} SortHeadIsNewest(group: seq<InboxItem>)
    requires |group| > 0
    ensures |Sort(group)| > 0 && IsNewest(group, Sort(group)[0])
  {
    var front, last := group[..|group| - 1], group[|group| - 1];
    SortSorts(front);
    InsertHead(Sort(front), last);
    if |front| == 0 {
      assert NewestAt(group, last, 0);
    } else {
      SortHeadIsNewest(front);
      NewestSnoc(front, Sort(front)[0], last);
      SplitLast(group);
    }
  }

  lemma {:induction false} FirstCommentIsHead(s: seq<InboxItem>)
    ensures var commented := Filter(s, HasComment());
      FirstComment(s) == if |commented| == 0 then None else CommentOf(commented[0])
  {
    if |s| > 0 {
      FirstCommentIsHead(s[..|s| - 1]);
      FilterMembers(s[..|s| - 1], HasComment());
      var front := Filter(s[..|s| - 1], HasComment());
      assert |front| > 0 ==> front[0] in front;
    }
  }

  /** The newest item of the group with a comment, or none. */
  ghost predicate IsCarried(group: seq<InboxItem>, comment: Option<string>) {
    var commented := Filter(group, HasComment());
    if |commented| == 0 then comment.None?
    else exists c :: IsNewest(commented, c) && CommentOf(c) == comment
  }

  /** `r` is the newest item `n` as it is when that names a comment or nothing does, and otherwise
      with the comment of the newest item that has one. */
  ghost predicate StandsAs(group: seq<InboxItem>, r: InboxItem, n: InboxItem, carried: Option<string>) {
    && IsNewest(group, n) && IsCarried(group, carried)
    && r == if CommentOf(n).None? && carried.Some? then WithComment(n, carried.value) else n
  }

  ghost predicate StandsFor(group: seq<InboxItem>, r: InboxItem) {
    exists n, carried :: StandsAs(group, r, n, carried)
  }

  lemma CommentIsCarried(group: seq<InboxItem>)
    ensures IsCarried(group, FirstComment(Sort(group)))
    ensures FirstComment(Sort(group)).Some? ==> Truthy(FirstComment(Sort(group)))
  {
    var commented := Filter(group, HasComment());
    FirstCommentIsHead(Sort(group));
    FilterSort(group, HasComment());
    SortSorts(commented);
    if |commented| > 0 {
      SortHeadIsNewest(commented);
      FilterMembers(group, HasComment());
      assert Sort(commented)[0] in Sort(commented);
    }
  }

  lemma RepresentStands(group: seq<InboxItem>)
    requires |group| > 0
    ensures StandsFor(group, Represent(group))
  {
    SortHeadIsNewest(group);
    CommentIsCarried(group);
    assert StandsAs(group, Represent(group), Sort(group)[0], FirstComment(Sort(group)));
  }

  /** Only the details can differ from some item of the group. */
  lemma RepresentKeeps(group: seq<InboxItem>)
    requires |group| > 0
    ensures exists n :: n in group && Represent(group) == n.(details := Represent(group).details)
  {
    SortSorts(group);
    assert Sort(group)[0] in Sort(group);
  }

  lemma RepresentAlone(i: InboxItem)
    ensures Represent([i]) == i
  {
    assert [i][..0] == [];
    assert Sort([i]) == [i] && FirstComment([i]) == if Truthy(CommentOf(i)) then CommentOf(i) else None;
  }

  ghost predicate HasEntry(items: seq<InboxItem>, k: string) {
    exists i :: i in items && Key(i) == k
  }

  // ----- what the list is ------------------------------------------------------------------

  lemma {:induction false} KeysAreDistinct(items: seq<InboxItem>)
    ensures NoDuplicates(Keys(items))
    ensures forall k :: k in Keys(items) <==> HasEntry(items, k)
  {
    if |items| > 0 {
      KeysAreDistinct(items[..|items| - 1]);
      SplitLast(items);
      assert items[|items| - 1] in items;
    }
  }

  lemma GroupIsMet(items: seq<InboxItem>, k: string)
    ensures |GroupOf(items, k)| > 0 <==> HasEntry(items, k)
  {
    var group := GroupOf(items, k);
    FilterMembers(items, HasKey(k));
    if |group| > 0 {
      assert group[0] in group;
    }
    if HasEntry(items, k) {
      var i :| i in items && Key(i) == k;
      assert i in group;
    }
  }

  lemma GroupKeepsKey(items: seq<InboxItem>, k: string)
    requires |GroupOf(items, k)| > 0
    ensures Key(Represent(GroupOf(items, k))) == k
  {
    FilterMembers(items, HasKey(k));
    RepresentKeeps(GroupOf(items, k));
  }

  lemma GroupHasKey(items: seq<InboxItem>, k: string)
    ensures |GroupOf(items, k)| > 0 <==> k in Keys(items)
    ensures |GroupOf(items, k)| > 0 ==> Key(Represent(GroupOf(items, k))) == k
  {
    GroupIsMet(items, k);
    KeysAreDistinct(items);
    if |GroupOf(items, k)| > 0 {
      GroupKeepsKey(items, k);
    }
  }

  lemma {:induction false} RepresentsAt(items: seq<InboxItem>, keys: seq<string>)
    requires forall k :: k in keys ==> k in Keys(items)
    ensures |Represents(items, keys)| == |keys|
    ensures forall i :: 0 <= i < |keys| ==>
      && Key(Represents(items, keys)[i]) == keys[i]
      && |GroupOf(items, keys[i])| > 0 && Represents(items, keys)[i] == Represent(GroupOf(items, keys[i]))
  {
    if |keys| > 0 {
      RepresentsAt(items, keys[..|keys| - 1]);
      assert keys[|keys| - 1] in keys;
      GroupHasKey(items, keys[|keys| - 1]);
    }
  }

  lemma RepresentsAll(active: seq<InboxItem>)
    ensures var out := Represents(active, Keys(active));
      && DistinctKeys(out)
      && (forall k :: HasEntry(out, k) <==> k in Keys(active))
      && (forall r :: r in out ==> StandsFor(GroupOf(active, Key(r)), r))
  {
    var keys := Keys(active);
    var out := Represents(active, keys);
    KeysAreDistinct(active);
    RepresentsAt(active, keys);
    assert DistinctKeys(out);
    forall k | k in keys
      ensures HasEntry(out, k)
    {
      var i :| 0 <= i < |keys| && keys[i] == k;
      assert out[i] in out;
    }
    forall r | r in out
      ensures Key(r) in keys && StandsFor(GroupOf(active, Key(r)), r)
    {
      var i :| 0 <= i < |out| && out[i] == r;
      RepresentStands(GroupOf(active, keys[i]));
    }
  }

  /** One entry for every key among the unarchived items and no other, each standing for all
      the items of its key, newest first. */
  lemma DeduplicateMeaning(items: seq<InboxItem>)
    ensures var active, out := Active(items), Deduplicate(items);
      && NewestFirst(out) && DistinctKeys(out)
      && (forall k :: HasEntry(out, k) <==> HasEntry(active, k))
      && (forall r :: r in out ==> StandsFor(GroupOf(active, Key(r)), r))
  {
    var active := Active(items);
    var before := Represents(active, Keys(active));
    RepresentsAll(active);
    SortSorts(before);
    SortDistinct(before);
    KeysAreDistinct(active);
    forall k
      ensures HasEntry(Deduplicate(items), k) <==> HasEntry(active, k)
    {
      assert HasEntry(before, k) <==> k in Keys(active);
    }
  }
}
