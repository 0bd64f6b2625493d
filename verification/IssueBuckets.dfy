/** The issue list cache: one bucket of loaded issues per status, with the server's total. */
module IssueBuckets {
  import opened Prelude

  datatype Status = Backlog | Todo | InProgress | InReview | Done | Blocked | Cancelled

  /** The statuses the list pages show, in order; cancelled issues are never shown. */
  const PAGINATED: seq<Status> := [Backlog, Todo, InProgress, InReview, Done, Blocked]

  predicate Visible(s: Status) {
    !s.Cancelled?
  }

  datatype Issue = Issue(
    id: string,
    status: Status,
    parentIssueId: Option<string>,
    projectId: Option<string>,
    title: string,
    position: int,
    labels: seq<string>)

  /** A partial issue; a patch never carries another id. */
  datatype Patch = Patch(
    status: Option<Status>,
    parentIssueId: Option<Option<string>>,
    projectId: Option<Option<string>>,
    title: Option<string>,
    position: Option<int>,
    labels: Option<seq<string>>)

  function Or<T>(o: Option<T>, default: T): T {
    match o case None => default case Some(v) => v
  }

  function Merge(i: Issue, p: Patch): Issue {
    Issue(i.id, Or(p.status, i.status), Or(p.parentIssueId, i.parentIssueId), Or(p.projectId, i.projectId),
          Or(p.title, i.title), Or(p.position, i.position), Or(p.labels, i.labels))
  }

  const NO_CHANGE := Patch(None, None, None, None, None, None)

  /** A patch that names every field. */
  function Everything(i: Issue): Patch {
    Patch(Some(i.status), Some(i.parentIssueId), Some(i.projectId), Some(i.title), Some(i.position), Some(i.labels))
  }

  /** Merging keeps the id, an empty patch changes nothing, a full one everything else, and a
      second time the same patch changes nothing more. */
  lemma MergeLaws(i: Issue, p: Patch, j: Issue)
    ensures Merge(i, p).id == i.id
    ensures Merge(i, NO_CHANGE) == i
    ensures j.id == i.id ==> Merge(i, Everything(j)) == j
    ensures Merge(Merge(i, p), p) == Merge(i, p)
  {
  }

  datatype Bucket = Bucket(issues: seq<Issue>, total: int)

  /** The `byStatus` record of a list cache; a missing status reads as an empty bucket. */
  type Buckets = map<Status, Bucket>

  function GetBucket(c: Buckets, s: Status): Bucket {
    if s in c then c[s] else Bucket([], 0)
  }

  function SetBucket(c: Buckets, s: Status, b: Bucket): Buckets {
    c[s := b]
  }

  function FindIssue(issues: seq<Issue>, id: string): Option<Issue> {
    if issues == [] then None
    else if issues[0].id == id then Some(issues[0])
    else FindIssue(issues[1..], id)
  }

  /** The issues whose id is not in `gone`, in order. */
  function Rest(issues: seq<Issue>, gone: set<string>): seq<Issue> {
    if issues == [] then []
    else if issues[0].id in gone then Rest(issues[1..], gone)
    else [issues[0]] + Rest(issues[1..], gone)
  }

  function DropIssue(issues: seq<Issue>, id: string): seq<Issue> {
    Rest(issues, {id})
  }

  function ReplaceIssue(issues: seq<Issue>, id: string, merged: Issue): seq<Issue> {
    seq(|issues|, k requires 0 <= k < |issues| => if issues[k].id == id then merged else issues[k])
  }

  datatype Location = Location(status: Status, issue: Issue)

  function FindIn(c: Buckets, id: string, statuses: seq<Status>): Option<Location> {
    if statuses == [] then None else
      match FindIssue(GetBucket(c, statuses[0]).issues, id)
      case Some(i) => Some(Location(statuses[0], i))
      case None => FindIn(c, id, statuses[1..])
  }

  function FindIssueLocation(c: Buckets, id: string): Option<Location> {
    FindIn(c, id, PAGINATED)
  }

  function AddIssueToBuckets(c: Buckets, issue: Issue): Buckets {
    var b := GetBucket(c, issue.status);
    if FindIssue(b.issues, issue.id).Some? then c
    else SetBucket(c, issue.status, Bucket(b.issues + [issue], b.total + 1))
  }

  function RemoveIssueFromBuckets(c: Buckets, id: string): Buckets {
    match FindIssueLocation(c, id)
    case None => c
    case Some(loc) =>
      var b := GetBucket(c, loc.status);
      SetBucket(c, loc.status, Bucket(DropIssue(b.issues, id), Max(0, b.total - 1)))
  }

  function PatchIssueInBuckets(c: Buckets, id: string, patch: Patch): Buckets {
    match FindIssueLocation(c, id)
    case None => c
    case Some(loc) =>
      var merged := Merge(loc.issue, patch);
      var nextStatus := Or(patch.status, loc.status);
      var from := GetBucket(c, loc.status);
      if nextStatus == loc.status then
        SetBucket(c, loc.status, Bucket(ReplaceIssue(from.issues, id, merged), from.total))
      else
        var to := GetBucket(c, nextStatus);
        var next := SetBucket(c, loc.status, Bucket(DropIssue(from.issues, id), Max(0, from.total - 1)));
        SetBucket(next, nextStatus, Bucket(to.issues + [merged], to.total + 1))
  }

  function FlattenFrom(c: Buckets, statuses: seq<Status>): seq<Issue> {
    if statuses == [] then [] else GetBucket(c, statuses[0]).issues + FlattenFrom(c, statuses[1..])
  }

  // ----- well-formedness and the view ------------------------------------------------

  ghost predicate DistinctIssues(issues: seq<Issue>) {
    forall i, j :: 0 <= i < j < |issues| ==> issues[i].id != issues[j].id
  }

  /** Issue `i` is shown under status `s`. */
  ghost predicate Located(c: Buckets, s: Status, i: Issue) {
    Visible(s) && i in GetBucket(c, s).issues
  }

  ghost predicate BucketOk(s: Status, b: Bucket) {
    && DistinctIssues(b.issues)
    && (forall i :: i in b.issues ==> i.status == s)
    && |b.issues| <= b.total
  }

  ghost predicate StatusOk(c: Buckets, s: Status) {
    BucketOk(s, GetBucket(c, s))
  }

  /** Buckets `s` and `t` share no id. */
  ghost predicate Apart(c: Buckets, s: Status, t: Status) {
    forall i, j :: i in GetBucket(c, s).issues && j in GetBucket(c, t).issues ==> i.id != j.id
  }

  /** No id is shown twice, each issue sits in the bucket of its status, and no bucket
      holds more issues than its total. */
  ghost predicate WellFormed(c: Buckets) {
    && (forall s {:trigger StatusOk(c, s)} :: Visible(s) ==> StatusOk(c, s))
    && (forall s, t {:trigger Apart(c, s, t)} :: Visible(s) && Visible(t) && s != t ==> Apart(c, s, t))
  }

  function IssueMap(issues: seq<Issue>): map<string, Issue> {
    if |issues| == 0 then map[] else
      var last := issues[|issues| - 1];
      IssueMap(issues[..|issues| - 1])[last.id := last]
  }

  function ViewFrom(c: Buckets, statuses: seq<Status>): map<string, Issue> {
    if |statuses| == 0 then map[] else ViewFrom(c, statuses[1..]) + IssueMap(GetBucket(c, statuses[0]).issues)
  }

  /** The cache as a plain map from id to issue. */
  function View(c: Buckets): map<string, Issue> {
    ViewFrom(c, PAGINATED)
  }

  lemma {:induction false} FindIssueFinds(issues: seq<Issue>, id: string)
    ensures match FindIssue(issues, id)
      case Some(i) => i in issues && i.id == id
      case None => forall i :: i in issues ==> i.id != id
  {
    if issues != [] {
      FindIssueFinds(issues[1..], id);
    }
  }

  lemma {:induction false} FindInFinds(c: Buckets, id: string, statuses: seq<Status>)
    ensures match FindIn(c, id, statuses)
      case Some(loc) => loc.status in statuses && loc.issue in GetBucket(c, loc.status).issues && loc.issue.id == id
      case None => forall s, i :: s in statuses && i in GetBucket(c, s).issues ==> i.id != id
  {
    if statuses != [] {
      FindIssueFinds(GetBucket(c, statuses[0]).issues, id);
      FindInFinds(c, id, statuses[1..]);
    }
  }

  lemma PaginatedAreVisible(s: Status)
    ensures s in PAGINATED <==> Visible(s)
  {
    match s
    case Backlog => assert PAGINATED[0] == s;
    case Todo => assert PAGINATED[1] == s;
    case InProgress => assert PAGINATED[2] == s;
    case InReview => assert PAGINATED[3] == s;
    case Done => assert PAGINATED[4] == s;
    case Blocked => assert PAGINATED[5] == s;
    case Cancelled =>
  }

  /** Locating an id: the located issue is shown, and an id is not found only if nothing shown has it. */
  lemma LocationIsRight(c: Buckets, id: string)
    ensures match FindIssueLocation(c, id)
      case Some(loc) => Located(c, loc.status, loc.issue) && loc.issue.id == id
      case None => forall s, i :: Located(c, s, i) ==> i.id != id
  {
    FindInFinds(c, id, PAGINATED);
    forall s: Status
      ensures s in PAGINATED <==> Visible(s)
    {
      PaginatedAreVisible(s);
    }
  }

  lemma ShownOnlyOnce(c: Buckets, s: Status, i: Issue, t: Status, j: Issue)
    requires WellFormed(c) && Located(c, s, i) && Located(c, t, j) && i.id == j.id
    ensures s == t && i == j
  {
    assert s != t ==> Apart(c, s, t);
    assert StatusOk(c, s);
  }

  lemma {:induction false} IssueMapHolds(issues: seq<Issue>)
    requires DistinctIssues(issues)
    ensures forall i :: i in issues ==> i.id in IssueMap(issues) && IssueMap(issues)[i.id] == i
    ensures forall id :: id in IssueMap(issues) ==> IssueMap(issues)[id] in issues && IssueMap(issues)[id].id == id
  {
    if |issues| > 0 {
      var n := |issues| - 1;
      IssueMapHolds(issues[..n]);
      SplitLast(issues);
      forall i | i in issues[..n]
        ensures i.id != issues[n].id
      {
        var k :| 0 <= k < n && issues[k] == i;
      }
    }
  }

  lemma {:induction false} ViewFromHolds(c: Buckets, statuses: seq<Status>)
    requires WellFormed(c) && forall s :: s in statuses ==> Visible(s)
    ensures forall id :: id in ViewFrom(c, statuses) ==>
      var i := ViewFrom(c, statuses)[id]; i.id == id && i.status in statuses && Located(c, i.status, i)
    ensures forall s, i :: s in statuses && i in GetBucket(c, s).issues ==>
      i.id in ViewFrom(c, statuses) && ViewFrom(c, statuses)[i.id] == i && i.status == s
  {
    if |statuses| > 0 {
      var s0 := statuses[0];
      ViewFromHolds(c, statuses[1..]);
      assert StatusOk(c, s0);
      IssueMapHolds(GetBucket(c, s0).issues);
      forall s, i | s in statuses && i in GetBucket(c, s).issues
        ensures i.id in ViewFrom(c, statuses) && ViewFrom(c, statuses)[i.id] == i && i.status == s
      {
        assert StatusOk(c, s);
        if i.id in IssueMap(GetBucket(c, s0).issues) {
          ShownOnlyOnce(c, s, i, s0, IssueMap(GetBucket(c, s0).issues)[i.id]);
        }
      }
    }
  }

  /** In a well-formed cache the view holds exactly the issues shown. */
  lemma ViewHolds(c: Buckets)
    requires WellFormed(c)
    ensures forall id :: id in View(c) ==> View(c)[id].id == id && Located(c, View(c)[id].status, View(c)[id])
    ensures forall s, i :: Located(c, s, i) ==> i.id in View(c) && View(c)[i.id] == i && i.status == s
  {
    forall s: Status
      ensures s in PAGINATED <==> Visible(s)
    {
      PaginatedAreVisible(s);
    }
    ViewFromHolds(c, PAGINATED);
  }

  /** A map that holds exactly the issues shown is the view. */
  lemma ViewIs(c: Buckets, m: map<string, Issue>)
    requires WellFormed(c)
    requires forall id :: id in m ==> m[id].id == id && Located(c, m[id].status, m[id])
    requires forall s, i :: Located(c, s, i) ==> i.id in m && m[i.id] == i
    ensures View(c) == m
  {
    ViewHolds(c);
    assert View(c).Keys == m.Keys;
  }
}
