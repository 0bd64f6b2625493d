/** The issue timeline: comments and activity entries, one flat sequence. */
module Timeline {
  import opened Prelude

  datatype EntryKind = Activity | Comment

  /** The fields of a timeline entry that the modelled code reads or writes. */
  datatype Entry = Entry(
    kind: EntryKind,
    id: string,
    actorType: string,
    actorId: string,
    createdAt: int,
    action: Option<string>,
    content: Option<string>,
    parentId: Option<string>,
    resolvedAt: Option<string>,
    resolvedByType: Option<string>,
    resolvedById: Option<string>,
    coalescedCount: Option<int>)

  predicate HasParent(e: Entry) {
    Truthy(e.parentId)
  }

  predicate ChildOf(e: Entry, p: string) {
    HasParent(e) && e.parentId.value == p
  }

  ghost predicate DistinctIds(es: seq<Entry>) {
    forall i, j :: 0 <= i < j < |es| ==> es[i].id != es[j].id
  }

  lemma SameIdSameEntry(es: seq<Entry>, a: Entry, b: Entry)
    requires DistinctIds(es) && a in es && b in es && a.id == b.id
    ensures a == b
  {
  }

  function Elements(es: seq<Entry>): set<Entry> {
    set e | e in es
  }

  function IdSet(es: seq<Entry>): set<string> {
    set e | e in es :: e.id
  }

  /** The loaded comments by id; a later entry with the same id replaces an earlier one. */
  function ById(es: seq<Entry>): map<string, Entry> {
    if es == [] then map[] else
      var rest := ById(es[..|es| - 1]);
      var e := es[|es| - 1];
      if e.kind.Comment? then rest[e.id := e] else rest
  }

  lemma {:induction false} ByIdKeys(es: seq<Entry>)
    ensures forall x :: x in ById(es) ==> ById(es)[x] in es && ById(es)[x].id == x && ById(es)[x].kind.Comment?
    ensures forall e :: e in es && e.kind.Comment? ==> e.id in ById(es)
  {
    if es != [] {
      ByIdKeys(es[..|es| - 1]);
      SplitLast(es);
    }
  }

  /** Under a repeated id it is the last comment that is looked up. */
  lemma {:induction false} ByIdIsLast(es: seq<Entry>, i: nat)
    requires i < |es| && es[i].kind.Comment?
    requires forall j :: i < j < |es| && es[j].kind.Comment? ==> es[j].id != es[i].id
    ensures es[i].id in ById(es) && ById(es)[es[i].id] == es[i]
  {
    if i < |es| - 1 {
      ByIdIsLast(es[..|es| - 1], i);
    }
  }

  lemma ByIdDistinct(es: seq<Entry>, e: Entry)
    requires DistinctIds(es) && e in es && e.kind.Comment?
    ensures e.id in ById(es) && ById(es)[e.id] == e
  {
    ByIdKeys(es);
  }

  /** The entries whose id is not in `gone`, in order. */
  function Without(es: seq<Entry>, gone: set<string>): seq<Entry> {
    if es == [] then [] else
      var rest := Without(es[..|es| - 1], gone);
      var e := es[|es| - 1];
      if e.id in gone then rest else rest + [e]
  }

  lemma {:induction false} WithoutMembers(es: seq<Entry>, gone: set<string>)
    ensures forall e :: e in Without(es, gone) <==> e in es && e.id !in gone
    ensures DistinctIds(es) ==> DistinctIds(Without(es, gone))
  {
    if es != [] {
      WithoutMembers(es[..|es| - 1], gone);
      SplitLast(es);
    }
  }

  /** What is left keeps its order. */
  lemma {:induction false} WithoutFollows(es: seq<Entry>, gone: set<string>)
    ensures Follows(es, Without(es, gone))
  {
    if es != [] {
      var front := es[..|es| - 1];
      WithoutFollows(front, gone);
      WithoutMembers(front, gone);
      FollowsSnoc(front, Without(front, gone), es[|es| - 1]);
      SplitLast(es);
    }
  }

  lemma {:induction false} WithoutConcat(a: seq<Entry>, b: seq<Entry>, gone: set<string>)
    ensures Without(a + b, gone) == Without(a, gone) + Without(b, gone)
  {
    if b == [] {
      assert a + b == a;
    } else {
      assert (a + b)[..|a + b| - 1] == a + b[..|b| - 1];
      WithoutConcat(a, b[..|b| - 1], gone);
    }
  }
}
