/** Inbox items, filtered and stably sorted. */
module InboxItems {
  import opened Prelude

  datatype InboxItem = InboxItem(
    id: string,
    issueId: Option<string>,
    read: bool,
    archived: bool,
    createdAt: int,
    details: Option<map<string, string>>)

  /** What an item is grouped under: its issue, or itself when it has none. */
  function Key(i: InboxItem): string {
    match i.issueId case Some(issue) => issue case None => i.id
  }

  function CommentOf(i: InboxItem): Option<string> {
    if i.details.Some? && "comment_id" in i.details.value then Some(i.details.value["comment_id"]) else None
  }

  // ----- filters --------------------------------------------------------------------------

  function Filter(s: seq<InboxItem>, p: InboxItem -> bool): seq<InboxItem> {
    if |s| == 0 then [] else
      var front := Filter(s[..|s| - 1], p);
      if p(s[|s| - 1]) then front + [s[|s| - 1]] else front
  }

  function Unarchived(): InboxItem -> bool {
    (i: InboxItem) => !i.archived
  }

  function HasKey(k: string): InboxItem -> bool {
    (i: InboxItem) => Key(i) == k
  }

  function LacksKey(k: string): InboxItem -> bool {
    (i: InboxItem) => Key(i) != k
  }

  function HasComment(): InboxItem -> bool {
    (i: InboxItem) => Truthy(CommentOf(i))
  }

  lemma FilterSnoc(s: seq<InboxItem>, x: InboxItem, p: InboxItem -> bool)
    ensures Filter(s + [x], p) == if p(x) then Filter(s, p) + [x] else Filter(s, p)
  {
    DropLast(s, x);
  }

  lemma {:induction false} FilterMembers(s: seq<InboxItem>, p: InboxItem -> bool)
    ensures forall i :: i in Filter(s, p) <==> i in s && p(i)
  {
    if |s| > 0 {
      FilterMembers(s[..|s| - 1], p);
      SplitLast(s);
    }
  }

  /** A coarser filter first makes no difference to a finer one. */
  lemma {:induction false} FilterThrough(s: seq<InboxItem>, p: InboxItem -> bool, q: InboxItem -> bool)
    requires forall i :: i in s && q(i) ==> p(i)
    ensures Filter(Filter(s, p), q) == Filter(s, q)
  {
    if |s| > 0 {
      var front, last := s[..|s| - 1], s[|s| - 1];
      FilterThrough(front, p, q);
      assert last in s;
      FilterSnoc(Filter(front, p), last, q);
    }
  }

  lemma {:induction false} FilterAgree(s: seq<InboxItem>, p: InboxItem -> bool, q: InboxItem -> bool)
    requires forall i :: i in s ==> p(i) == q(i)
    ensures Filter(s, p) == Filter(s, q)
  {
    if |s| > 0 {
      assert s[|s| - 1] in s;
      FilterAgree(s[..|s| - 1], p, q);
    }
  }

  lemma {:induction false} FilterNone(s: seq<InboxItem>, p: InboxItem -> bool)
    requires forall i :: i in s ==> !p(i)
    ensures Filter(s, p) == []
  {
    if |s| > 0 {
      assert s[|s| - 1] in s;
      FilterNone(s[..|s| - 1], p);
    }
  }

  lemma {:induction false} FilterAll(s: seq<InboxItem>, p: InboxItem -> bool)
    requires forall i :: i in s ==> p(i)
    ensures Filter(s, p) == s
  {
    if |s| > 0 {
      FilterAll(s[..|s| - 1], p);
      SplitLast(s);
    }
  }

  // ----- distinct keys ---------------------------------------------------------------------

  ghost predicate DistinctKeys(s: seq<InboxItem>) {
    forall i, j :: 0 <= i < j < |s| ==> Key(s[i]) != Key(s[j])
  }

  lemma {:induction false} OnlyOneWithKey(s: seq<InboxItem>, i: nat)
    requires DistinctKeys(s) && i < |s|
    ensures Filter(s, HasKey(Key(s[i]))) == [s[i]]
  {
    var front, last := s[..|s| - 1], s[|s| - 1];
    if i < |s| - 1 {
      OnlyOneWithKey(front, i);
    } else {
      FilterNone(front, HasKey(Key(last)));
    }
  }

  // ----- the stable sort --------------------------------------------------------------------

  ghost predicate NewestFirst(s: seq<InboxItem>) {
    forall i, j :: 0 <= i < j < |s| ==> s[i].createdAt >= s[j].createdAt
  }

  /** Put `x` after everything at least as new. */
  function Insert(r: seq<InboxItem>, x: InboxItem): seq<InboxItem> {
    if |r| == 0 || r[|r| - 1].createdAt >= x.createdAt then r + [x]
    else Insert(r[..|r| - 1], x) + [r[|r| - 1]]
  }

  /** Newest first; items of the same time keep their order. */
  function Sort(s: seq<InboxItem>): seq<InboxItem> {
    if |s| == 0 then [] else Insert(Sort(s[..|s| - 1]), s[|s| - 1])
  }

  lemma {:induction false} InsertMembers(r: seq<InboxItem>, x: InboxItem)
    ensures forall i :: i in Insert(r, x) <==> i in r || i == x
    ensures |Insert(r, x)| == |r| + 1
  {
    if |r| > 0 && r[|r| - 1].createdAt < x.createdAt {
      InsertMembers(r[..|r| - 1], x);
      SplitLast(r);
    }
  }

  lemma {:induction false} InsertSorted(r: seq<InboxItem>, x: InboxItem)
    requires NewestFirst(r)
    ensures NewestFirst(Insert(r, x))
  {
    if |r| > 0 && r[|r| - 1].createdAt < x.createdAt {
      var front, last := r[..|r| - 1], r[|r| - 1];
      InsertSorted(front, x);
      InsertMembers(front, x);
      forall i | i in Insert(front, x)
        ensures i.createdAt >= last.createdAt
      {
      }
    }
  }

  lemma {:induction false} SortSorts(s: seq<InboxItem>)
    ensures NewestFirst(Sort(s)) && |Sort(s)| == |s|
    ensures forall i :: i in Sort(s) <==> i in s
  {
    if |s| > 0 {
      var front, last := s[..|s| - 1], s[|s| - 1];
      SortSorts(front);
      InsertSorted(Sort(front), last);
      InsertMembers(Sort(front), last);
      SplitLast(s);
    }
  }

  lemma {:induction false} InsertHead(r: seq<InboxItem>, x: InboxItem)
    requires NewestFirst(r)
    ensures |Insert(r, x)| > 0
    ensures Insert(r, x)[0] == if |r| > 0 && r[0].createdAt >= x.createdAt then r[0] else x
  {
    if |r| > 0 && r[|r| - 1].createdAt < x.createdAt {
      InsertHead(r[..|r| - 1], x);
    }
  }

  lemma {:induction false} InsertDistinct(r: seq<InboxItem>, x: InboxItem)
    requires DistinctKeys(r) && forall i :: i in r ==> Key(i) != Key(x)
    ensures DistinctKeys(Insert(r, x))
  {
    if |r| > 0 && r[|r| - 1].createdAt < x.createdAt {
      var front, last := r[..|r| - 1], r[|r| - 1];
      InsertDistinct(front, x);
      InsertMembers(front, x);
      forall i | i in Insert(front, x)
        ensures Key(i) != Key(last)
      {
        if i in front {
          var k :| 0 <= k < |front| && front[k] == i;
        } else {
          assert last in r;
        }
      }
    }
  }

  lemma {:induction false} SortDistinct(s: seq<InboxItem>)
    requires DistinctKeys(s)
    ensures DistinctKeys(Sort(s))
  {
    if |s| > 0 {
      var front, last := s[..|s| - 1], s[|s| - 1];
      SortDistinct(front);
      SortSorts(front);
      forall i | i in front
        ensures Key(i) != Key(last)
      {
        var k :| 0 <= k < |front| && front[k] == i;
      }
      InsertDistinct(Sort(front), last);
    }
  }

  lemma {:induction false} SortOfSorted(s: seq<InboxItem>)
    requires NewestFirst(s)
    ensures Sort(s) == s
  {
    if |s| > 0 {
      SortOfSorted(s[..|s| - 1]);
      SplitLast(s);
    }
  }

  lemma InsertAtEnd(r: seq<InboxItem>, x: InboxItem)
    requires forall i :: i in r ==> i.createdAt >= x.createdAt
    ensures Insert(r, x) == r + [x]
  {
    assert |r| > 0 ==> r[|r| - 1] in r;
  }

  lemma InsertBeforeLast(r: seq<InboxItem>, last: InboxItem, x: InboxItem)
    requires last.createdAt < x.createdAt
    ensures Insert(r + [last], x) == Insert(r, x) + [last]
  {
    DropLast(r, last);
  }

  lemma {:induction false} FilterInsert(r: seq<InboxItem>, x: InboxItem, p: InboxItem -> bool)
    requires NewestFirst(r)
    ensures Filter(Insert(r, x), p) == if p(x) then Insert(Filter(r, p), x) else Filter(r, p)
  {
    if |r| == 0 || r[|r| - 1].createdAt >= x.createdAt {
      FilterSnoc(r, x, p);
      FilterMembers(r, p);
      InsertAtEnd(Filter(r, p), x);
    } else {
      var front, last := r[..|r| - 1], r[|r| - 1];
      FilterInsert(front, x, p);
      FilterSnoc(Insert(front, x), last, p);
      InsertBeforeLast(Filter(front, p), last, x);
    }
  }

  lemma SortSnoc(s: seq<InboxItem>, x: InboxItem)
    ensures Sort(s + [x]) == Insert(Sort(s), x)
  {
    DropLast(s, x);
  }

  /** Sorting and filtering commute: the sort is stable. */
  lemma {:induction false} FilterSort(s: seq<InboxItem>, p: InboxItem -> bool)
    ensures Filter(Sort(s), p) == Sort(Filter(s, p))
  {
    if |s| > 0 {
      var front, last := s[..|s| - 1], s[|s| - 1];
      FilterSort(front, p);
      SortSorts(front);
      FilterInsert(Sort(front), last, p);
      SortSnoc(Filter(front, p), last);
    }
  }

  function IsAt(t: int): InboxItem -> bool {
    (i: InboxItem) => i.createdAt == t
  }

  /** The items of time `t` are the same, in the same order. */
  ghost predicate SameAt(q: seq<InboxItem>, r: seq<InboxItem>, t: int) {
    Filter(q, IsAt(t)) == Filter(r, IsAt(t))
  }

  /** `r` lists `s` newest first, items of one time in their old order. */
  ghost predicate IsStableSort(r: seq<InboxItem>, s: seq<InboxItem>) {
    NewestFirst(r) && forall t :: SameAt(r, s, t)
  }

  lemma AllAtOneTime(s: seq<InboxItem>, t: int)
    ensures NewestFirst(Filter(s, IsAt(t)))
  {
    var out := Filter(s, IsAt(t));
    FilterMembers(s, IsAt(t));
    forall i | 0 <= i < |out|
      ensures out[i].createdAt == t
    {
      assert out[i] in out;
    }
  }

  lemma SortKeepsTime(s: seq<InboxItem>, t: int)
    ensures SameAt(Sort(s), s, t)
  {
    FilterSort(s, IsAt(t));
    AllAtOneTime(s, t);
    SortOfSorted(Filter(s, IsAt(t)));
  }

  lemma SortIsStable(s: seq<InboxItem>)
    ensures IsStableSort(Sort(s), s)
  {
    SortSorts(s);
    forall t
      ensures SameAt(Sort(s), s, t)
    {
      SortKeepsTime(s, t);
    }
  }

  lemma SameAtMembers(q: seq<InboxItem>, r: seq<InboxItem>, i: InboxItem)
    requires SameAt(q, r, i.createdAt)
    ensures i in q <==> i in r
  {
    FilterMembers(q, IsAt(i.createdAt));
    FilterMembers(r, IsAt(i.createdAt));
    assert i in q <==> i in Filter(q, IsAt(i.createdAt));
    assert i in r <==> i in Filter(r, IsAt(i.createdAt));
  }

  lemma LastTimesAgree(q: seq<InboxItem>, r: seq<InboxItem>)
    requires NewestFirst(q) && NewestFirst(r) && |q| > 0 && |r| > 0
    requires SameAt(q, r, q[|q| - 1].createdAt) && SameAt(q, r, r[|r| - 1].createdAt)
    ensures q[|q| - 1].createdAt == r[|r| - 1].createdAt
  {
    SameAtMembers(q, r, q[|q| - 1]);
    SameAtMembers(q, r, r[|r| - 1]);
    assert q[|q| - 1] in r && r[|r| - 1] in q;
  }

  lemma SameAtWithoutLast(f: seq<InboxItem>, x: InboxItem, g: seq<InboxItem>, y: InboxItem, t: int)
    requires x.createdAt == y.createdAt && SameAt(f + [x], g + [y], t)
    ensures SameAt(f, g, t) && (t == x.createdAt ==> x == y)
  {
    FilterSnoc(f, x, IsAt(t));
    FilterSnoc(g, y, IsAt(t));
    if t == x.createdAt {
      DropLast(Filter(f, IsAt(t)), x);
      DropLast(Filter(g, IsAt(t)), y);
      assert |Filter(f, IsAt(t))| == |Filter(g, IsAt(t))|;
    }
  }

  /** Newest first and stable leaves no choice. */
  lemma {:induction false} StableSortIsUnique(q: seq<InboxItem>, r: seq<InboxItem>)
    requires NewestFirst(q) && NewestFirst(r) && forall t :: SameAt(q, r, t)
    ensures q == r
  {
    if |q| > 0 && |r| > 0 {
      LastTimesAgree(q, r);
      var f, x, g, y := q[..|q| - 1], q[|q| - 1], r[..|r| - 1], r[|r| - 1];
      assert q == f + [x] && r == g + [y];
      forall t
        ensures SameAt(f, g, t) && (t == x.createdAt ==> x == y)
      {
        SameAtWithoutLast(f, x, g, y, t);
      }
      assert SameAt(f, g, x.createdAt);
      StableSortIsUnique(f, g);
    } else if |q| > 0 {
      SameAtMembers(q, r, q[0]);
    } else if |r| > 0 {
      SameAtMembers(q, r, r[0]);
    }
  }
}
