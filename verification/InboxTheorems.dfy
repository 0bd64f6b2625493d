/** De-duplicating twice, after archiving, and after marking as read; the cached list's optimistic steps. */
module InboxTheorems {
  import opened Prelude
  import opened InboxItems
  import opened Inbox

  // ----- de-duplicating twice ----------------------------------------------------------------

  lemma {:induction false} DistinctKeysStay(s: seq<InboxItem>, n: nat)
    requires DistinctKeys(s) && n <= |s|
    ensures |Keys(s[..n])| == n && forall i :: 0 <= i < n ==> Keys(s[..n])[i] == Key(s[i])
  {
    if n > 0 {
      DistinctKeysStay(s, n - 1);
      assert s[..n][..n - 1] == s[..n - 1];
      assert Key(s[n - 1]) !in Keys(s[..n - 1]);
    }
  }

  lemma AloneRepresentsItself(s: seq<InboxItem>, n: nat)
    requires DistinctKeys(s) && n < |s|
    ensures var group := GroupOf(s, Key(s[n])); |group| == 1 && Represent(group) == s[n]
  {
    OnlyOneWithKey(s, n);
    RepresentAlone(s[n]);
  }

  lemma {:induction false} SelfRepresents(s: seq<InboxItem>, keys: seq<string>)
    requires DistinctKeys(s) && |keys| <= |s| && forall i :: 0 <= i < |keys| ==> keys[i] == Key(s[i])
    ensures Represents(s, keys) == s[..|keys|]
  {
    if |keys| > 0 {
      var n := |keys| - 1;
      SelfRepresents(s, keys[..n]);
      AloneRepresentsItself(s, n);
      assert s[..n + 1] == s[..n] + [s[n]];
    }
  }

  lemma {:induction false} RepresentsUnarchived(active: seq<InboxItem>, keys: seq<string>)
    requires forall i :: i in active ==> !i.archived
    ensures forall r :: r in Represents(active, keys) ==> !r.archived
  {
    if |keys| > 0 {
      RepresentsUnarchived(active, keys[..|keys| - 1]);
      var group := GroupOf(active, keys[|keys| - 1]);
      FilterMembers(active, HasKey(keys[|keys| - 1]));
      if |group| > 0 {
        RepresentKeeps(group);
      }
    }
  }

  lemma DeduplicatedIsUnarchived(items: seq<InboxItem>)
    ensures forall r :: r in Deduplicate(items) ==> !r.archived
  {
    var active := Active(items);
    FilterMembers(items, Unarchived());
    RepresentsUnarchived(active, Keys(active));
    SortSorts(Represents(active, Keys(active)));
  }

  /** The list is its own de-duplication. */
  lemma DeduplicateIsIdempotent(items: seq<InboxItem>)
    ensures Deduplicate(Deduplicate(items)) == Deduplicate(items)
  {
    var out := Deduplicate(items);
    DeduplicateMeaning(items);
    DeduplicatedIsUnarchived(items);
    FilterAll(out, Unarchived());
    DistinctKeysStay(out, |out|);
    assert out[..|out|] == out;
    SelfRepresents(out, Keys(out));
    SortOfSorted(out);
  }

  // ----- archiving ----------------------------------------------------------------------------

  function Find(items: seq<InboxItem>, id: string): Option<InboxItem> {
    if |items| == 0 then None
    else if items[0].id == id then Some(items[0])
    else Find(items[1..], id)
  }

  function IssueOf(target: Option<InboxItem>): Option<string> {
    if target.Some? then target.value.issueId else None
  }

  /** Archiving takes the item itself and everything under the same non-empty issue id. */
  function IsHit(id: string, issue: Option<string>): InboxItem -> bool {
    (i: InboxItem) => i.id == id || (Truthy(issue) && i.issueId == issue)
  }

  function Survives(id: string, issue: Option<string>): InboxItem -> bool {
    (i: InboxItem) => !IsHit(id, issue)(i)
  }

  function ArchiveHits(items: seq<InboxItem>, id: string, issue: Option<string>): seq<InboxItem> {
    if |items| == 0 then [] else
      var last := items[|items| - 1];
      ArchiveHits(items[..|items| - 1], id, issue) + [if IsHit(id, issue)(last) then last.(archived := true) else last]
  }

  function Archive(items: seq<InboxItem>, id: string): seq<InboxItem> {
    ArchiveHits(items, id, IssueOf(Find(items, id)))
  }

  lemma {:induction false} FindFinds(items: seq<InboxItem>, id: string)
    ensures match Find(items, id)
      case Some(t) => t in items && t.id == id
      case None => forall i :: i in items ==> i.id != id
  {
    if |items| > 0 {
      FindFinds(items[1..], id);
    }
  }

  /** Position by position: archived are the item itself and, if it has a non-empty issue, everything with
      that issue; no other field changes. */
  lemma {:induction false} ArchiveHitsTouchOnlyHits(items: seq<InboxItem>, id: string, issue: Option<string>, k: nat)
    requires k < |items|
    ensures |ArchiveHits(items, id, issue)| == |items|
    ensures var was, now := items[k], ArchiveHits(items, id, issue)[k];
      && now == was.(archived := now.archived)
      && (now.archived <==> was.archived || was.id == id || (Truthy(issue) && was.issueId == issue))
  {
    var n := |items| - 1;
    if n > 0 {
      ArchiveHitsTouchOnlyHits(items[..n], id, issue, if k < n then k else 0);
    }
  }

  /** The issue is that of the first item with the id. */
  lemma ArchiveTouchesOnlyHits(items: seq<InboxItem>, j: nat, k: nat)
    requires j < |items| && k < |items| && forall i :: 0 <= i < j ==> items[i].id != items[j].id
    ensures var target, was := items[j], items[k];
      && |Archive(items, target.id)| == |items|
      && Archive(items, target.id)[k] ==
           if was.id == target.id || (Truthy(target.issueId) && was.issueId == target.issueId)
           then was.(archived := true) else was
  {
    FindsFirst(items, j);
    ArchiveHitsTouchOnlyHits(items, items[j].id, items[j].issueId, k);
  }

  lemma {:induction false} FindsFirst(items: seq<InboxItem>, j: nat)
    requires j < |items| && forall i :: 0 <= i < j ==> items[i].id != items[j].id
    ensures Find(items, items[j].id) == Some(items[j])
  {
    if j > 0 {
      assert items[0].id != items[j].id;
      FindsFirst(items[1..], j - 1);
    }
  }

  lemma {:induction false} ArchivedDropOut(items: seq<InboxItem>, id: string, issue: Option<string>)
    ensures Active(ArchiveHits(items, id, issue)) == Filter(Active(items), Survives(id, issue))
  {
    if |items| > 0 {
      var front, last := items[..|items| - 1], items[|items| - 1];
      ArchivedDropOut(front, id, issue);
      var archived := if IsHit(id, issue)(last) then last.(archived := true) else last;
      FilterSnoc(ArchiveHits(front, id, issue), archived, Unarchived());
      FilterSnoc(Active(front), last, Survives(id, issue));
    }
  }

  lemma {:induction false} KeysWithout(items: seq<InboxItem>, k: string)
    ensures Keys(Filter(items, LacksKey(k))) == Remove(Keys(items), k)
  {
    if |items| > 0 {
      var front, last := items[..|items| - 1], items[|items| - 1];
      KeysWithout(front, k);
      RemoveMembers(Keys(front), k);
      DropLast(Filter(front, LacksKey(k)), last);
      DropLast(Keys(front), Key(last));
    }
  }

  lemma {:induction false} RepresentsWithout(items: seq<InboxItem>, keys: seq<string>, k: string)
    ensures Represents(Filter(items, LacksKey(k)), Remove(keys, k)) == Filter(Represents(items, keys), LacksKey(k))
  {
    if |keys| > 0 {
      var front, last := keys[..|keys| - 1], keys[|keys| - 1];
      RepresentsWithout(items, front, k);
      DropLast(Remove(front, k), last);
      var group := GroupOf(items, last);
      if |group| > 0 {
        GroupHasKey(items, last);
        FilterSnoc(Represents(items, front), Represent(group), LacksKey(k));
      }
      if last != k {
        FilterThrough(items, LacksKey(k), HasKey(last));
      }
    }
  }

  /** Leaving out a key before or after merging is the same. */
  lemma MergedWithout(active: seq<InboxItem>, k: string)
    ensures Merged(Filter(active, LacksKey(k))) == Filter(Merged(active), LacksKey(k))
  {
    KeysWithout(active, k);
    RepresentsWithout(active, Keys(active), k);
    FilterSort(Represents(active, Keys(active)), LacksKey(k));
  }

  /** Items with the same id are grouped under the same key. */
  ghost predicate SameIdSameKey(items: seq<InboxItem>) {
    forall i, j :: i in items && j in items && i.id == j.id ==> Key(i) == Key(j)
  }

  /** Every unarchived item shown under the target's entry is the target itself or shares its
      non-empty issue id. */
  ghost predicate ReachesWholeEntry(items: seq<InboxItem>, target: InboxItem) {
    forall i :: i in items && !i.archived && Key(i) == Key(target) ==> IsHit(target.id, target.issueId)(i)
  }

  lemma HitsShareKey(items: seq<InboxItem>, target: InboxItem, i: InboxItem)
    requires SameIdSameKey(items) && target in items && i in items && IsHit(target.id, target.issueId)(i)
    ensures Key(i) == Key(target)
  {
  }

  /** Archiving an item and then de-duplicating is de-duplicating and then dropping its entry,
      exactly when archiving reaches everything the entry stands for. */
  lemma ArchiveDropsEntryExactlyWhenItReachesAll(items: seq<InboxItem>, id: string, target: InboxItem)
    requires SameIdSameKey(items) && Find(items, id) == Some(target)
    ensures Deduplicate(Archive(items, id)) == Filter(Deduplicate(items), LacksKey(Key(target)))
      <==> ReachesWholeEntry(items, target)
  {
    var active, k := Active(items), Key(target);
    FindFinds(items, id);
    ArchivedDropOut(items, id, target.issueId);
    FilterMembers(items, Unarchived());
    forall i | i in active && Key(i) != k
      ensures Survives(id, target.issueId)(i)
    {
      if IsHit(id, target.issueId)(i) { HitsShareKey(items, target, i); }
    }
    MergedWithout(active, k);
    if ReachesWholeEntry(items, target) {
      FilterAgree(active, Survives(id, target.issueId), LacksKey(k));
    } else {
      var i :| i in items && !i.archived && Key(i) == k && !IsHit(id, target.issueId)(i);
      LeftBehind(items, id, i);
      FilterMembers(Deduplicate(items), LacksKey(k));
    }
  }

  /** An unarchived item that archiving does not hit keeps its entry. */
  lemma LeftBehind(items: seq<InboxItem>, id: string, i: InboxItem)
    requires i in items && !i.archived && !IsHit(id, IssueOf(Find(items, id)))(i)
    ensures HasEntry(Deduplicate(Archive(items, id)), Key(i))
  {
    var issue := IssueOf(Find(items, id));
    ArchivedDropOut(items, id, issue);
    FilterMembers(items, Unarchived());
    FilterMembers(Active(items), Survives(id, issue));
    assert i in Active(Archive(items, id));
    DeduplicateMeaning(Archive(items, id));
    assert HasEntry(Active(Archive(items, id)), Key(i));
  }

  /** Non-empty issue ids that are no item's id are enough. */
  lemma ArchiveDropsEntry(items: seq<InboxItem>, id: string, target: InboxItem)
    requires SameIdSameKey(items) && Find(items, id) == Some(target)
    requires forall i :: i in items && i.issueId.Some? ==> i.issueId.value != ""
    requires forall i, j :: i in items && j in items && i.issueId.Some? ==> i.issueId.value != j.id
    ensures Deduplicate(Archive(items, id)) == Filter(Deduplicate(items), LacksKey(Key(target)))
  {
    FindFinds(items, id);
    ArchiveDropsEntryExactlyWhenItReachesAll(items, id, target);
  }

  /** An item without an issue whose id is another item's issue: archiving it leaves its entry. */
  lemma ArchiveMayLeaveTheEntry()
    ensures exists items: seq<InboxItem>, id, target ::
      && SameIdSameKey(items) && Find(items, id) == Some(target)
      && HasEntry(Deduplicate(Archive(items, id)), Key(target))
  {
    var a := InboxItem("a", None, false, false, 1, None);
    var b := InboxItem("b", Some("a"), false, false, 2, None);
    var items := [a, b];
    assert b in items && !IsHit("a", IssueOf(Find(items, "a")))(b);
    LeftBehind(items, "a", b);
    assert SameIdSameKey(items) && Find(items, "a") == Some(a) && Key(b) == Key(a);
  }

  // ----- marking as read --------------------------------------------------------------------

  datatype Mark = One(id: string) | All

  function MarkItem(m: Mark, i: InboxItem): InboxItem {
    match m
    case One(id) => if i.id == id then i.(read := true) else i
    case All => if !i.archived then i.(read := true) else i
  }

  function MarkRead(items: seq<InboxItem>, m: Mark): seq<InboxItem> {
    if |items| == 0 then [] else MarkRead(items[..|items| - 1], m) + [MarkItem(m, items[|items| - 1])]
  }

  ghost predicate IgnoresRead(p: InboxItem -> bool) {
    forall m, i :: p(MarkItem(m, i)) == p(i)
  }

  lemma MarkSnoc(s: seq<InboxItem>, x: InboxItem, m: Mark)
    ensures MarkRead(s + [x], m) == MarkRead(s, m) + [MarkItem(m, x)]
  {
    DropLast(s, x);
  }

  lemma {:induction false} MarkFilter(s: seq<InboxItem>, m: Mark, p: InboxItem -> bool)
    requires IgnoresRead(p)
    ensures Filter(MarkRead(s, m), p) == MarkRead(Filter(s, p), m)
  {
    if |s| > 0 {
      var front, last := s[..|s| - 1], s[|s| - 1];
      MarkFilter(front, m, p);
      FilterSnoc(MarkRead(front, m), MarkItem(m, last), p);
      MarkSnoc(Filter(front, p), last, m);
    }
  }

  lemma {:induction false} MarkInsert(r: seq<InboxItem>, x: InboxItem, m: Mark)
    ensures Insert(MarkRead(r, m), MarkItem(m, x)) == MarkRead(Insert(r, x), m)
  {
    if |r| > 0 && r[|r| - 1].createdAt < x.createdAt {
      var front, last := r[..|r| - 1], r[|r| - 1];
      MarkInsert(front, x, m);
      MarkSnoc(Insert(front, x), last, m);
      InsertBeforeLast(MarkRead(front, m), MarkItem(m, last), MarkItem(m, x));
    } else {
      MarkSnoc(r, x, m);
    }
  }

  lemma {:induction false} MarkSort(s: seq<InboxItem>, m: Mark)
    ensures Sort(MarkRead(s, m)) == MarkRead(Sort(s), m)
  {
    if |s| > 0 {
      var front, last := s[..|s| - 1], s[|s| - 1];
      MarkSort(front, m);
      SortSnoc(MarkRead(front, m), MarkItem(m, last));
      MarkInsert(Sort(front), last, m);
    }
  }

  lemma {:induction false} MarkKeys(s: seq<InboxItem>, m: Mark)
    ensures Keys(MarkRead(s, m)) == Keys(s)
  {
    if |s| > 0 {
      MarkKeys(s[..|s| - 1], m);
      DropLast(MarkRead(s[..|s| - 1], m), MarkItem(m, s[|s| - 1]));
    }
  }

  lemma {:induction false} MarkComments(s: seq<InboxItem>, m: Mark)
    ensures FirstComment(MarkRead(s, m)) == FirstComment(s)
  {
    if |s| > 0 {
      MarkComments(s[..|s| - 1], m);
      DropLast(MarkRead(s[..|s| - 1], m), MarkItem(m, s[|s| - 1]));
    }
  }

  lemma {:induction false} MarkHead(s: seq<InboxItem>, m: Mark)
    ensures |MarkRead(s, m)| == |s| && forall i :: 0 <= i < |s| ==> MarkRead(s, m)[i] == MarkItem(m, s[i])
  {
    if |s| > 0 {
      MarkHead(s[..|s| - 1], m);
    }
  }

  lemma MarkRepresent(group: seq<InboxItem>, m: Mark)
    requires |group| > 0
    ensures |MarkRead(group, m)| > 0 && Represent(MarkRead(group, m)) == MarkItem(m, Represent(group))
  {
    MarkSort(group, m);
    MarkComments(Sort(group), m);
    SortSorts(group);
    MarkHead(group, m);
    MarkHead(Sort(group), m);
  }

  lemma {:induction false} MarkRepresents(items: seq<InboxItem>, keys: seq<string>, m: Mark)
    ensures Represents(MarkRead(items, m), keys) == MarkRead(Represents(items, keys), m)
  {
    if |keys| > 0 {
      var front, last := keys[..|keys| - 1], keys[|keys| - 1];
      MarkRepresents(items, front, m);
      MarkFilter(items, m, HasKey(last));
      MarkHead(GroupOf(items, last), m);
      if |GroupOf(items, last)| > 0 {
        MarkRepresent(GroupOf(items, last), m);
        MarkSnoc(Represents(items, front), Represent(GroupOf(items, last)), m);
      }
    }
  }

  /** Marking as read before or after de-duplicating is the same. */
  lemma MarkingCommutes(items: seq<InboxItem>, m: Mark)
    ensures Deduplicate(MarkRead(items, m)) == MarkRead(Deduplicate(items), m)
  {
    var active := Active(items);
    MarkFilter(items, m, Unarchived());
    MarkKeys(active, m);
    MarkRepresents(active, Keys(active), m);
    MarkSort(Represents(active, Keys(active)), m);
  }

  function IsUnread(): InboxItem -> bool {
    (i: InboxItem) => !i.read
  }

  /** The badge: entries whose newest item is unread. */
  function UnreadCount(items: seq<InboxItem>): nat {
    |Filter(Deduplicate(items), IsUnread())|
  }

  /** After "mark all read" the badge shows zero. */
  lemma MarkAllClearsTheBadge(items: seq<InboxItem>)
    ensures UnreadCount(MarkRead(items, All)) == 0
  {
    var out := Deduplicate(items);
    MarkingCommutes(items, All);
    DeduplicatedIsUnarchived(items);
    MarkHead(out, All);
    FilterNone(MarkRead(out, All), IsUnread());
  }

  /** Marking one id sets `read` on the items with that id and changes nothing else; marking all sets it
      on the unarchived items. */
  lemma MarkingTouchesOnlyRead(items: seq<InboxItem>, m: Mark, k: nat)
    requires k < |items|
    ensures |MarkRead(items, m)| == |items|
    ensures var was, now := items[k], MarkRead(items, m)[k];
      && now == was.(read := now.read)
      && (now.read <==> was.read || (if m.One? then was.id == m.id else !was.archived))
  {
    MarkHead(items, m);
  }

  lemma EntryIsOfItem(items: seq<InboxItem>, r: InboxItem) returns (n: InboxItem)
    requires r in Deduplicate(items)
    ensures n in items && n.id == r.id && Key(n) == Key(r)
  {
    var group := GroupOf(Active(items), Key(r));
    DeduplicateMeaning(items);
    assert StandsFor(group, r);
    FilterMembers(Active(items), HasKey(Key(r)));
    FilterMembers(items, Unarchived());
    n :| n in group && n.id == r.id;
  }

  ghost predicate DistinctEntryIds(s: seq<InboxItem>) {
    forall i, j :: 0 <= i < j < |s| ==> s[i].id != s[j].id
  }

  lemma EntryIdsDiffer(items: seq<InboxItem>)
    requires SameIdSameKey(items)
    ensures DistinctEntryIds(Deduplicate(items))
  {
    var out := Deduplicate(items);
    DeduplicateMeaning(items);
    forall i, j | 0 <= i < j < |out|
      ensures out[i].id != out[j].id
    {
      assert out[i] in out && out[j] in out;
      var a := EntryIsOfItem(items, out[i]);
      var b := EntryIsOfItem(items, out[j]);
    }
  }

  ghost predicate HasUnread(s: seq<InboxItem>, id: string) {
    exists e :: e in s && e.id == id && !e.read
  }

  lemma {:induction false} MarkOneReads(s: seq<InboxItem>, id: string)
    requires DistinctEntryIds(s)
    ensures |Filter(MarkRead(s, One(id)), IsUnread())| == |Filter(s, IsUnread())| - if HasUnread(s, id) then 1 else 0
  {
    if |s| > 0 {
      var front, last := s[..|s| - 1], s[|s| - 1];
      MarkOneReads(front, id);
      SplitLast(s);
      FilterSnoc(MarkRead(front, One(id)), MarkItem(One(id), last), IsUnread());
      FilterSnoc(front, last, IsUnread());
      assert HasUnread(s, id) <==> HasUnread(front, id) || (last.id == id && !last.read);
      assert last.id == id ==> !HasUnread(front, id);
    }
  }

  /** Marking one id as read lowers the badge by one exactly when an unread entry has that id, and leaves
      it otherwise. */
  lemma MarkOneLowersTheBadge(items: seq<InboxItem>, id: string)
    requires SameIdSameKey(items)
    ensures UnreadCount(MarkRead(items, One(id))) ==
      UnreadCount(items) - if HasUnread(Deduplicate(items), id) then 1 else 0
  {
    MarkingCommutes(items, One(id));
    EntryIdsDiffer(items);
    MarkOneReads(Deduplicate(items), id);
  }

  // ----- the cached list ------------------------------------------------------------------------

  class InboxCache {
    var list: Option<seq<InboxItem>>

    method OnMutateArchive(id: string) returns (prev: Option<seq<InboxItem>>)
      modifies this
      ensures prev == old(list)
      ensures list == if prev.Some? then Some(Archive(prev.value, id)) else None
    {
      prev := list;
      if list.Some? {
        list := Some(Archive(list.value, id));
      }
    }

    method OnMutateRead(m: Mark) returns (prev: Option<seq<InboxItem>>)
      modifies this
      ensures prev == old(list)
      ensures list == if prev.Some? then Some(MarkRead(prev.value, m)) else None
    {
      prev := list;
      if list.Some? {
        list := Some(MarkRead(list.value, m));
      }
    }

    method OnError(prev: Option<seq<InboxItem>>)
      modifies this
      ensures list == if prev.Some? then prev else old(list)
    {
      if prev.Some? {
        list := prev;
      }
    }

    method FailedArchive(id: string)
      modifies this
      ensures list == old(list)
    {
      var prev := OnMutateArchive(id);
      OnError(prev);
    }

    method FailedRead(m: Mark)
      modifies this
      ensures list == old(list)
    {
      var prev := OnMutateRead(m);
      OnError(prev);
    }
  }
}
