/** The bucketed cache behaves as a map from id to issue, and its totals move with it. */
module BucketTheorems {
  import opened Prelude
  import opened IssueBuckets

  function Total(c: Buckets, s: Status): int {
    GetBucket(c, s).total
  }

  function TotalFrom(c: Buckets, statuses: seq<Status>): int {
    if |statuses| == 0 then 0 else Total(c, statuses[0]) + TotalFrom(c, statuses[1..])
  }

  /** The totals shown, added up. */
  function VisibleTotal(c: Buckets): int {
    TotalFrom(c, PAGINATED)
  }

  // ----- the plain map ------------------------------------------------------------

  function AddToMap(m: map<string, Issue>, i: Issue): map<string, Issue> {
    if Visible(i.status) && i.id !in m then m[i.id := i] else m
  }

  function RemoveFromMap(m: map<string, Issue>, id: string): map<string, Issue> {
    m - {id}
  }

  function PatchMap(m: map<string, Issue>, id: string, p: Patch): map<string, Issue> {
    if id !in m then m else
      var merged := Merge(m[id], p);
      if Visible(merged.status) then m[id := merged] else m - {id}
  }

  lemma MapInsertSize(m: map<string, Issue>, id: string, i: Issue)
    ensures |m[id := i]| == if id in m then |m| else |m| + 1
  {
  }

  lemma MapDeleteSize(m: map<string, Issue>, id: string)
    ensures |m - {id}| == if id in m then |m| - 1 else |m|
  {
    assert (m - {id}).Keys == m.Keys - {id};
    assert |(m - {id}).Keys| == |m - {id}| && |m.Keys| == |m|;
    if id !in m {
      assert m - {id} == m;
    }
  }

  lemma ReinsertSame(m: map<string, Issue>, id: string, i: Issue)
    ensures (m - {id})[id := i] == m[id := i]
    ensures id !in m - {id}
  {
  }

  // ----- lists of issues -------------------------------------------------------------

  lemma {:induction false} DropMembers(issues: seq<Issue>, id: string)
    ensures forall i :: i in DropIssue(issues, id) <==> i in issues && i.id != id
  {
    if issues != [] {
      DropMembers(issues[1..], id);
    }
  }

  lemma {:induction false} DropDistinct(issues: seq<Issue>, id: string)
    requires DistinctIssues(issues)
    ensures DistinctIssues(DropIssue(issues, id))
  {
    if issues != [] {
      var rest := DropIssue(issues[1..], id);
      DropDistinct(issues[1..], id);
      DropMembers(issues[1..], id);
      forall k | 0 <= k < |rest|
        ensures rest[k].id != issues[0].id
      {
        assert rest[k] in rest && rest[k] in issues[1..];
      }
    }
  }

  lemma {:induction false} DropShortens(issues: seq<Issue>, id: string)
    ensures |DropIssue(issues, id)| <= |issues|
    ensures (exists i :: i in issues && i.id == id) ==> |DropIssue(issues, id)| < |issues|
  {
    if issues != [] {
      DropShortens(issues[1..], id);
    }
  }

  lemma ReplaceMembers(issues: seq<Issue>, id: string, merged: Issue)
    requires DistinctIssues(issues) && merged.id == id && exists i :: i in issues && i.id == id
    ensures var out := ReplaceIssue(issues, id, merged);
      && |out| == |issues| && DistinctIssues(out)
      && forall i :: i in out <==> i == merged || (i in issues && i.id != id)
  {
    var out := ReplaceIssue(issues, id, merged);
    forall i
      ensures i in out <==> i == merged || (i in issues && i.id != id)
    {
      if i == merged {
        var j :| 0 <= j < |issues| && issues[j].id == id;
        assert out[j] == merged;
      } else if i in issues && i.id != id {
        var j :| 0 <= j < |issues| && issues[j] == i;
        assert out[j] == i;
      }
    }
  }

  lemma AppendOk(s: Status, b: Bucket, i: Issue)
    requires BucketOk(s, b) && i.status == s && FindIssue(b.issues, i.id).None?
    ensures BucketOk(s, Bucket(b.issues + [i], b.total + 1))
  {
    FindIssueFinds(b.issues, i.id);
    forall k | 0 <= k < |b.issues|
      ensures b.issues[k].id != i.id
    {
      assert b.issues[k] in b.issues;
    }
  }

  lemma DropOk(s: Status, b: Bucket, id: string)
    requires BucketOk(s, b) && exists i :: i in b.issues && i.id == id
    ensures BucketOk(s, Bucket(DropIssue(b.issues, id), Max(0, b.total - 1)))
    ensures b.total > 0
  {
    DropMembers(b.issues, id);
    DropDistinct(b.issues, id);
    DropShortens(b.issues, id);
  }

  // ----- one step --------------------------------------------------------------------

  lemma {:induction false} SetTotalFrom(c: Buckets, s: Status, b: Bucket, statuses: seq<Status>)
    requires NoDuplicates(statuses)
    ensures TotalFrom(SetBucket(c, s, b), statuses)
         == TotalFrom(c, statuses) + if s in statuses then b.total - Total(c, s) else 0
  {
    if |statuses| > 0 {
      SetTotalFrom(c, s, b, statuses[1..]);
      assert statuses == [statuses[0]] + statuses[1..];
      assert statuses[0] !in statuses[1..];
    }
  }

  lemma SetTotals(c: Buckets, s: Status, b: Bucket)
    ensures VisibleTotal(SetBucket(c, s, b)) == VisibleTotal(c) + if Visible(s) then b.total - Total(c, s) else 0
  {
    PaginatedAreVisible(s);
    SetTotalFrom(c, s, b, PAGINATED);
  }

  function Swapped(m: map<string, Issue>, id: string, kept: Option<Issue>): map<string, Issue> {
    match kept case None => m - {id} case Some(i) => m[id := i]
  }

  /** `b` is the bucket of `s` with everything under `id` replaced by `kept`. */
  ghost predicate Swaps(c: Buckets, s: Status, b: Bucket, id: string, kept: Option<Issue>) {
    && BucketOk(s, b)
    && (forall i :: i in b.issues <==> (i in GetBucket(c, s).issues && i.id != id) || kept == Some(i))
    && (kept.Some? ==> kept.value.id == id && kept.value.status == s)
    && (id in View(c) ==> View(c)[id].status == s)
  }

  /** Replacing one bucket updates, or deletes from, the map. */
  lemma SwapRefines(c: Buckets, s: Status, b: Bucket, id: string, kept: Option<Issue>)
    requires WellFormed(c) && Visible(s) && Swaps(c, s, b, id, kept)
    ensures WellFormed(SetBucket(c, s, b))
    ensures View(SetBucket(c, s, b)) == Swapped(View(c), id, kept)
  {
    var next := SetBucket(c, s, b);
    SwapShows(c, s, b, id, kept);
    ViewHolds(c);
    SwapKeepsWellFormed(c, s, b, id, kept);
    ViewIs(next, Swapped(View(c), id, kept));
  }

  lemma SwapKeepsWellFormed(c: Buckets, s: Status, b: Bucket, id: string, kept: Option<Issue>)
    requires WellFormed(c) && Visible(s) && Swaps(c, s, b, id, kept)
    ensures WellFormed(SetBucket(c, s, b))
  {
    var next := SetBucket(c, s, b);
    SwapShows(c, s, b, id, kept);
    forall t | Visible(t)
      ensures StatusOk(next, t)
    {
      assert t != s ==> GetBucket(next, t) == GetBucket(c, t) && StatusOk(c, t);
    }
    forall t, u | Visible(t) && Visible(u) && t != u
      ensures Apart(next, t, u)
    {
      forall i, j | i in GetBucket(next, t).issues && j in GetBucket(next, u).issues
        ensures i.id != j.id
      {
        assert Located(next, t, i) && Located(next, u, j);
        if i.id == j.id && i.id != id {
          ShownOnlyOnce(c, t, i, u, j);
        }
      }
    }
  }

  lemma OtherBucketsLack(c: Buckets, s: Status, id: string)
    requires WellFormed(c) && (id in View(c) ==> View(c)[id].status == s)
    ensures forall t, i :: Located(c, t, i) && i.id == id ==> t == s
  {
    ViewHolds(c);
  }

  lemma SwapShows(c: Buckets, s: Status, b: Bucket, id: string, kept: Option<Issue>)
    requires WellFormed(c) && Visible(s) && Swaps(c, s, b, id, kept)
    ensures forall t, i :: Located(SetBucket(c, s, b), t, i) <==>
      (Located(c, t, i) && i.id != id) || (t == s && kept == Some(i))
  {
    OtherBucketsLack(c, s, id);
    var next := SetBucket(c, s, b);
    forall t, i
      ensures Located(next, t, i) <==> (Located(c, t, i) && i.id != id) || (t == s && kept == Some(i))
    {
      assert Located(c, t, i) && i.id == id ==> t == s;
      if t == s {
        assert GetBucket(next, t) == b;
      } else {
        assert GetBucket(next, t) == GetBucket(c, t);
      }
    }
  }

  lemma SameViewIfVisibleSame(c: Buckets, next: Buckets)
    requires WellFormed(c) && forall s :: Visible(s) ==> GetBucket(next, s) == GetBucket(c, s)
    ensures WellFormed(next) && View(next) == View(c)
  {
    forall s | Visible(s)
      ensures StatusOk(next, s)
    {
      assert StatusOk(c, s);
    }
    forall s, t | Visible(s) && Visible(t) && s != t
      ensures Apart(next, s, t)
    {
      assert Apart(c, s, t);
    }
    ViewHolds(c);
    assert forall s, i :: Located(next, s, i) <==> Located(c, s, i);
    ViewIs(next, View(c));
  }

  lemma HiddenBucket(c: Buckets, b: Bucket)
    requires WellFormed(c)
    ensures WellFormed(SetBucket(c, Cancelled, b)) && View(SetBucket(c, Cancelled, b)) == View(c)
    ensures VisibleTotal(SetBucket(c, Cancelled, b)) == VisibleTotal(c)
  {
    SameViewIfVisibleSame(c, SetBucket(c, Cancelled, b));
    SetTotals(c, Cancelled, b);
  }

  /** `next` is well formed, shows the map `m`, and its totals moved with what is shown. */
  ghost predicate Refines(c: Buckets, next: Buckets, m: map<string, Issue>) {
    && WellFormed(next) && View(next) == m
    && VisibleTotal(next) - VisibleTotal(c) == |m| - |View(c)|
  }

  lemma ShownIsFound(c: Buckets, s: Status, id: string)
    requires WellFormed(c) && Visible(s)
    ensures FindIssue(GetBucket(c, s).issues, id).Some? <==> id in View(c) && View(c)[id].status == s
  {
    FindIssueFinds(GetBucket(c, s).issues, id);
    ViewHolds(c);
    if FindIssue(GetBucket(c, s).issues, id).Some? {
      assert Located(c, s, FindIssue(GetBucket(c, s).issues, id).value);
    }
  }

  lemma LocationIsInView(c: Buckets, id: string)
    requires WellFormed(c)
    ensures match FindIssueLocation(c, id)
      case None => id !in View(c)
      case Some(loc) =>
        && id in View(c) && View(c)[id] == loc.issue && loc.issue.status == loc.status && loc.issue.id == id
        && Visible(loc.status) && loc.issue in GetBucket(c, loc.status).issues
  {
    LocationIsRight(c, id);
    ViewHolds(c);
  }

  /** A swap whose total moves with the number of issues is a step of the map. */
  lemma SwapStep(c: Buckets, s: Status, b: Bucket, id: string, kept: Option<Issue>)
    requires WellFormed(c) && Visible(s) && Swaps(c, s, b, id, kept)
    requires b.total - Total(c, s) == (if kept.Some? then 1 else 0) - (if id in View(c) then 1 else 0)
    ensures Refines(c, SetBucket(c, s, b), Swapped(View(c), id, kept))
  {
    SwapRefines(c, s, b, id, kept);
    SetTotals(c, s, b);
    if kept.Some? { MapInsertSize(View(c), id, kept.value); } else { MapDeleteSize(View(c), id); }
  }

  lemma GrownSwaps(c: Buckets, issue: Issue)
    requires WellFormed(c) && Visible(issue.status) && issue.id !in View(c)
    ensures var b := GetBucket(c, issue.status);
      Swaps(c, issue.status, Grown(b, issue), issue.id, Some(issue))
  {
    var b := GetBucket(c, issue.status);
    ShownIsFound(c, issue.status, issue.id);
    FindIssueFinds(b.issues, issue.id);
    assert StatusOk(c, issue.status);
    AppendOk(issue.status, b, issue);
  }

  /** A shown issue is in the bucket of its status. */
  lemma ShownThere(c: Buckets, id: string, s: Status) returns (issue: Issue)
    requires WellFormed(c) && Visible(s) && id in View(c) && View(c)[id].status == s
    ensures issue in GetBucket(c, s).issues && issue.id == id && StatusOk(c, s)
  {
    issue := View(c)[id];
    ViewHolds(c);
    assert StatusOk(c, s);
  }

  lemma DroppedSwaps(c: Buckets, id: string, s: Status)
    requires WellFormed(c) && Visible(s) && id in View(c) && View(c)[id].status == s
    ensures var b := GetBucket(c, s);
      && Swaps(c, s, Bucket(DropIssue(b.issues, id), Max(0, b.total - 1)), id, None)
      && b.total > 0
  {
    var b := GetBucket(c, s);
    var issue := ShownThere(c, id, s);
    DropMembers(b.issues, id);
    DropOk(s, b, id);
  }

  lemma ReplacedSwaps(c: Buckets, id: string, s: Status, merged: Issue)
    requires WellFormed(c) && Visible(s) && id in View(c) && View(c)[id].status == s
    requires merged.id == id && merged.status == s
    ensures var b := GetBucket(c, s);
      Swaps(c, s, Bucket(ReplaceIssue(b.issues, id, merged), b.total), id, Some(merged))
  {
    var b := GetBucket(c, s);
    var issue := ShownThere(c, id, s);
    ReplaceMembers(b.issues, id, merged);
  }

  function Appended(c: Buckets, issue: Issue): Buckets {
    SetBucket(c, issue.status, Grown(GetBucket(c, issue.status), issue))
  }

  function Grown(b: Bucket, issue: Issue): Bucket {
    Bucket(b.issues + [issue], b.total + 1)
  }

  lemma AppendRefines(c: Buckets, issue: Issue)
    requires WellFormed(c) && (Visible(issue.status) ==> issue.id !in View(c))
    ensures Refines(c, Appended(c, issue), if Visible(issue.status) then View(c)[issue.id := issue] else View(c))
  {
    var s := issue.status;
    var grown := Grown(GetBucket(c, s), issue);
    if Visible(s) {
      assert Refines(c, SetBucket(c, s, grown), Swapped(View(c), issue.id, Some(issue))) by {
        GrownSwaps(c, issue);
        SwapStep(c, s, grown, issue.id, Some(issue));
      }
    } else {
      HiddenBucket(c, grown);
    }
  }

  /** Adding an issue that no other visible bucket holds: an insert into the map. */
  lemma AddRefines(c: Buckets, issue: Issue)
    requires WellFormed(c)
    requires Visible(issue.status) && issue.id in View(c) ==> View(c)[issue.id].status == issue.status
    ensures Refines(c, AddIssueToBuckets(c, issue), AddToMap(View(c), issue))
  {
    var present := FindIssue(GetBucket(c, issue.status).issues, issue.id).Some?;
    assert Visible(issue.status) ==> (present <==> issue.id in View(c)) by {
      if Visible(issue.status) { ShownIsFound(c, issue.status, issue.id); }
    }
    if present {
      assert AddIssueToBuckets(c, issue) == c && AddToMap(View(c), issue) == View(c);
    } else {
      assert AddIssueToBuckets(c, issue) == Appended(c, issue);
      AppendRefines(c, issue);
    }
  }

  /** The same id under two statuses: whether adding keeps the cache well formed is exactly
      whether no other visible bucket holds the id. */
  lemma AddIsSafeExactlyWhenNotElsewhere(c: Buckets, issue: Issue)
    requires WellFormed(c)
    ensures WellFormed(AddIssueToBuckets(c, issue)) <==>
      (Visible(issue.status) && issue.id in View(c) ==> View(c)[issue.id].status == issue.status)
  {
    if Visible(issue.status) && issue.id in View(c) && View(c)[issue.id].status != issue.status {
      ViewHolds(c);
      ShownIsFound(c, issue.status, issue.id);
      var other := View(c)[issue.id];
      var next := AddIssueToBuckets(c, issue);
      if WellFormed(next) {
        ShownOnlyOnce(next, other.status, other, issue.status, issue);
      }
    } else {
      AddRefines(c, issue);
    }
  }

  lemma NothingShown()
    ensures WellFormed(map[]) && View(map[]) == map[]
  {
    forall s, t | s != t
      ensures Apart(map[], s, t) && StatusOk(map[], s)
    {
    }
    ViewIs(map[], map[]);
  }

  /** One issue added under two statuses is shown twice. */
  lemma AddedUnderTwoStatuses(issue: Issue, t: Status)
    requires Visible(issue.status) && Visible(t) && t != issue.status
    ensures WellFormed(map[]) && !WellFormed(AddIssueToBuckets(AddIssueToBuckets(map[], issue), issue.(status := t)))
  {
    var once := AddIssueToBuckets(map[], issue);
    NothingShown();
    AddRefines(map[], issue);
    assert View(once)[issue.id] == issue;
    AddIsSafeExactlyWhenNotElsewhere(once, issue.(status := t));
  }

  /** Removing: a delete from the map. */
  lemma RemoveRefines(c: Buckets, id: string)
    requires WellFormed(c)
    ensures Refines(c, RemoveIssueFromBuckets(c, id), RemoveFromMap(View(c), id))
  {
    LocationIsInView(c, id);
    match FindIssueLocation(c, id)
    case None =>
      assert View(c) - {id} == View(c);
    case Some(loc) =>
      var b := GetBucket(c, loc.status);
      var left := Bucket(DropIssue(b.issues, id), Max(0, b.total - 1));
      DroppedSwaps(c, id, loc.status);
      SwapStep(c, loc.status, left, id, None);
  }

  lemma PatchInPlace(c: Buckets, id: string, patch: Patch, loc: Location)
    requires WellFormed(c) && FindIssueLocation(c, id) == Some(loc) && Or(patch.status, loc.status) == loc.status
    ensures Refines(c, PatchIssueInBuckets(c, id, patch), PatchMap(View(c), id, patch))
  {
    LocationIsInView(c, id);
    var merged := Merge(loc.issue, patch);
    var b := GetBucket(c, loc.status);
    ReplacedSwaps(c, id, loc.status, merged);
    SwapStep(c, loc.status, Bucket(ReplaceIssue(b.issues, id, merged), b.total), id, Some(merged));
  }

  lemma PatchAcrossIsMove(c: Buckets, id: string, patch: Patch, loc: Location)
    requires FindIssueLocation(c, id) == Some(loc) && Or(patch.status, loc.status) != loc.status
    requires loc.issue.status == loc.status
    ensures PatchIssueInBuckets(c, id, patch) == Appended(RemoveIssueFromBuckets(c, id), Merge(loc.issue, patch))
  {
  }

  lemma PatchAppends(c: Buckets, id: string, patch: Patch, loc: Location)
    requires WellFormed(c) && FindIssueLocation(c, id) == Some(loc) && Or(patch.status, loc.status) != loc.status
    ensures var mid := RemoveIssueFromBuckets(c, id);
      && Refines(c, mid, View(c) - {id})
      && Refines(mid, PatchIssueInBuckets(c, id, patch), AddToMap(View(mid), Merge(loc.issue, patch)))
  {
    LocationIsInView(c, id);
    RemoveRefines(c, id);
    PatchAcrossIsMove(c, id, patch, loc);
    ReinsertSame(View(c), id, loc.issue);
    AppendRefines(RemoveIssueFromBuckets(c, id), Merge(loc.issue, patch));
  }

  /** A change of status is a removal followed by an append to the new bucket. */
  lemma PatchAcross(c: Buckets, id: string, patch: Patch, loc: Location)
    requires WellFormed(c) && FindIssueLocation(c, id) == Some(loc) && Or(patch.status, loc.status) != loc.status
    requires id in View(c) && View(c)[id] == loc.issue && loc.issue.id == id
    ensures Refines(c, PatchIssueInBuckets(c, id, patch), PatchMap(View(c), id, patch))
  {
    PatchAppends(c, id, patch, loc);
    var next, mid := PatchIssueInBuckets(c, id, patch), RemoveIssueFromBuckets(c, id);
    MoveRefines(c, mid, next, id, Merge(loc.issue, patch));
  }

  lemma MoveRefines(c: Buckets, mid: Buckets, next: Buckets, id: string, merged: Issue)
    requires Refines(c, mid, View(c) - {id}) && Refines(mid, next, AddToMap(View(mid), merged)) && merged.id == id
    ensures Refines(c, next, if Visible(merged.status) then View(c)[id := merged] else View(c) - {id})
  {
    ReinsertSame(View(c), id, merged);
  }

  /** Patching: an update of the map, or a delete when the issue becomes cancelled. */
  lemma PatchRefines(c: Buckets, id: string, patch: Patch)
    requires WellFormed(c)
    ensures Refines(c, PatchIssueInBuckets(c, id, patch), PatchMap(View(c), id, patch))
  {
    LocationIsInView(c, id);
    match FindIssueLocation(c, id)
    case None =>
    case Some(loc) =>
      if Or(patch.status, loc.status) == loc.status {
        PatchInPlace(c, id, patch, loc);
      } else {
        PatchAcross(c, id, patch, loc);
      }
  }

  // ----- where things stand ------------------------------------------------------------------

  /** Only the bucket of `s` may differ. */
  ghost predicate OthersStay(c: Buckets, next: Buckets, s: Status) {
    forall t :: t != s ==> GetBucket(next, t) == GetBucket(c, t)
  }

  /** A new issue goes to the end of its status, counted once; one that is there already changes nothing. */
  lemma AddPutsLast(c: Buckets, issue: Issue)
    ensures var next, b := AddIssueToBuckets(c, issue), GetBucket(c, issue.status);
      && OthersStay(c, next, issue.status)
      && GetBucket(next, issue.status) ==
           if exists i :: i in b.issues && i.id == issue.id then b else Bucket(b.issues + [issue], b.total + 1)
  {
    FindIssueFinds(GetBucket(c, issue.status).issues, issue.id);
  }

  /** A removed issue leaves a gap that closes, counted once; nothing else moves. */
  lemma RemoveTakesOut(c: Buckets, id: string)
    requires WellFormed(c)
    ensures var next := RemoveIssueFromBuckets(c, id);
      if id in View(c) then
        var s := View(c)[id].status;
        var b := GetBucket(c, s);
        && OthersStay(c, next, s) && |b.issues| <= b.total
        && GetBucket(next, s) == Bucket(Rest(b.issues, {id}), b.total - 1)
      else next == c
  {
    LocationIsInView(c, id);
    if id in View(c) {
      DroppedSwaps(c, id, View(c)[id].status);
      assert StatusOk(c, View(c)[id].status);
    }
  }

  /** A patch that keeps the status keeps every place and total. */
  lemma PatchKeepsPlaces(c: Buckets, id: string, patch: Patch, k: nat)
    requires WellFormed(c) && id in View(c) && Merge(View(c)[id], patch).status == View(c)[id].status
    requires k < |GetBucket(c, View(c)[id].status).issues|
    ensures var next, s := PatchIssueInBuckets(c, id, patch), View(c)[id].status;
      var b, after := GetBucket(c, s), GetBucket(next, s);
      && OthersStay(c, next, s) && |after.issues| == |b.issues| && after.total == b.total
      && after.issues[k] == if b.issues[k].id == id then Merge(b.issues[k], patch) else b.issues[k]
  {
    LocationIsInView(c, id);
    var s := View(c)[id].status;
    var b := GetBucket(c, s);
    assert StatusOk(c, s);
    assert Located(c, s, b.issues[k]);
    if b.issues[k].id == id {
      ShownOnlyOnce(c, s, b.issues[k], s, View(c)[id]);
    }
  }

  /** A patch that changes the status takes the issue out of one column and puts it at the end of the
      other, hidden or not. */
  lemma PatchMovesToEnd(c: Buckets, id: string, patch: Patch)
    requires WellFormed(c) && id in View(c) && Merge(View(c)[id], patch).status != View(c)[id].status
    ensures var next, s, merged := PatchIssueInBuckets(c, id, patch), View(c)[id].status, Merge(View(c)[id], patch);
      var from, to := GetBucket(c, s), GetBucket(c, merged.status);
      && GetBucket(next, s) == Bucket(Rest(from.issues, {id}), from.total - 1)
      && GetBucket(next, merged.status) == Bucket(to.issues + [merged], to.total + 1)
      && forall t :: t != s && t != merged.status ==> GetBucket(next, t) == GetBucket(c, t)
  {
    LocationIsInView(c, id);
    DroppedSwaps(c, id, View(c)[id].status);
  }

  // ----- every run ----------------------------------------------------------------------

  datatype Op = AddOp(issue: Issue) | RemoveOp(id: string) | PatchOp(id: string, patch: Patch)

  function Apply(c: Buckets, op: Op): Buckets {
    match op
    case AddOp(i) => AddIssueToBuckets(c, i)
    case RemoveOp(id) => RemoveIssueFromBuckets(c, id)
    case PatchOp(id, p) => PatchIssueInBuckets(c, id, p)
  }

  function ApplyToMap(m: map<string, Issue>, op: Op): map<string, Issue> {
    match op
    case AddOp(i) => AddToMap(m, i)
    case RemoveOp(id) => RemoveFromMap(m, id)
    case PatchOp(id, p) => PatchMap(m, id, p)
  }

  /** An added issue is not shown under another status. */
  predicate Allowed(m: map<string, Issue>, op: Op) {
    op.AddOp? && Visible(op.issue.status) && op.issue.id in m ==> m[op.issue.id].status == op.issue.status
  }

  function RunOps(c: Buckets, ops: seq<Op>): Buckets
    decreases |ops|
  {
    if |ops| == 0 then c else RunOps(Apply(c, ops[0]), ops[1..])
  }

  function RunOnMap(m: map<string, Issue>, ops: seq<Op>): map<string, Issue>
    decreases |ops|
  {
    if |ops| == 0 then m else RunOnMap(ApplyToMap(m, ops[0]), ops[1..])
  }

  predicate AllAllowed(m: map<string, Issue>, ops: seq<Op>)
    decreases |ops|
  {
    |ops| == 0 || (Allowed(m, ops[0]) && AllAllowed(ApplyToMap(m, ops[0]), ops[1..]))
  }

  lemma StepRefines(c: Buckets, op: Op)
    requires WellFormed(c) && Allowed(View(c), op)
    ensures Refines(c, Apply(c, op), ApplyToMap(View(c), op))
  {
    match op
    case AddOp(i) => AddRefines(c, i);
    case RemoveOp(id) => RemoveRefines(c, id);
    case PatchOp(id, p) => PatchRefines(c, id, p);
  }

  /** Over every run the buckets stay well formed, act on the view as a plain map does,
      and the totals shown change by exactly the change in the number of issues shown. */
  lemma {:induction false} RunRefines(c: Buckets, ops: seq<Op>)
    requires WellFormed(c) && AllAllowed(View(c), ops)
    ensures Refines(c, RunOps(c, ops), RunOnMap(View(c), ops))
    decreases |ops|
  {
    if ops != [] {
      StepRefines(c, ops[0]);
      RunRefines(Apply(c, ops[0]), ops[1..]);
    }
  }

  // ----- the flattened list ---------------------------------------------------------------

  lemma {:induction false} FlattenMembers(c: Buckets, statuses: seq<Status>)
    ensures forall i :: i in FlattenFrom(c, statuses) <==> exists s :: s in statuses && i in GetBucket(c, s).issues
  {
    if statuses != [] {
      FlattenMembers(c, statuses[1..]);
    }
  }

  lemma {:induction false} FlattenDistinct(c: Buckets, statuses: seq<Status>)
    requires WellFormed(c) && (forall s :: s in statuses ==> Visible(s))
    requires forall i, j :: 0 <= i < j < |statuses| ==> statuses[i] != statuses[j]
    ensures DistinctIssues(FlattenFrom(c, statuses))
  {
    if statuses != [] {
      var s, first, rest := statuses[0], GetBucket(c, statuses[0]).issues, FlattenFrom(c, statuses[1..]);
      FlattenDistinct(c, statuses[1..]);
      assert StatusOk(c, s);
      FlattenMembers(c, statuses[1..]);
      forall i, j | 0 <= i < |first| && 0 <= j < |rest|
        ensures first[i].id != rest[j].id
      {
        assert rest[j] in rest && Located(c, s, first[i]);
        var t :| t in statuses[1..] && rest[j] in GetBucket(c, t).issues;
        if first[i].id == rest[j].id {
          ShownOnlyOnce(c, s, first[i], t, rest[j]);
        }
      }
    }
  }

  /** The columns one after the other, each in its own order; cancelled issues are not among them. */
  lemma FlattenIsColumnByColumn(c: Buckets)
    ensures FlattenFrom(c, PAGINATED) ==
      GetBucket(c, Backlog).issues + (GetBucket(c, Todo).issues + (GetBucket(c, InProgress).issues
      + (GetBucket(c, InReview).issues + (GetBucket(c, Done).issues + GetBucket(c, Blocked).issues))))
  {
    LastColumns(c);
    FlattenNext(c, InProgress, [InReview, Done, Blocked]);
    FlattenNext(c, Todo, [InProgress, InReview, Done, Blocked]);
    FlattenNext(c, Backlog, [Todo, InProgress, InReview, Done, Blocked]);
  }

  lemma LastColumns(c: Buckets)
    ensures FlattenFrom(c, [InReview, Done, Blocked]) ==
      GetBucket(c, InReview).issues + (GetBucket(c, Done).issues + GetBucket(c, Blocked).issues)
  {
    FlattenNext(c, Blocked, []);
    assert GetBucket(c, Blocked).issues + [] == GetBucket(c, Blocked).issues;
    FlattenNext(c, Done, [Blocked]);
    FlattenNext(c, InReview, [Done, Blocked]);
  }

  lemma FlattenNext(c: Buckets, s: Status, rest: seq<Status>)
    ensures FlattenFrom(c, [s] + rest) == GetBucket(c, s).issues + FlattenFrom(c, rest)
  {
    assert ([s] + rest)[1..] == rest && ([s] + rest)[0] == s;
  }

  /** The list consumers see is the view, each issue once. */
  lemma FlattenIsView(c: Buckets)
    requires WellFormed(c)
    ensures var flat := FlattenFrom(c, PAGINATED);
      && DistinctIssues(flat)
      && (forall i :: i in flat <==> i.id in View(c) && View(c)[i.id] == i)
  {
    forall s: Status
      ensures s in PAGINATED <==> Visible(s)
    {
      PaginatedAreVisible(s);
    }
    FlattenDistinct(c, PAGINATED);
    FlattenMembers(c, PAGINATED);
    ViewHolds(c);
    forall i
      ensures i in FlattenFrom(c, PAGINATED) <==> i.id in View(c) && View(c)[i.id] == i
    {
      if i in FlattenFrom(c, PAGINATED) {
        var s :| s in PAGINATED && i in GetBucket(c, s).issues;
        assert Located(c, s, i);
      }
    }
  }
}
