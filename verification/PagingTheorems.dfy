/** Loading more of a bucket that is not a prefix of the server's list, and loads among other changes. */
module PagingTheorems {
  import opened Prelude
  import opened IssueBuckets
  import opened BucketTheorems
  import opened Paging

  // ----- when nothing is skipped ---------------------------------------------------------------

  /** The server's first `n` issues are all loaded. */
  ghost predicate FirstLoaded(issues: seq<Issue>, list: seq<Issue>, n: nat) {
    forall j :: 0 <= j < n && j < |list| ==> Loaded(issues, list[j].id)
  }

  /** Every loaded issue is among the server's first `n`. */
  ghost predicate AllAmongFirst(issues: seq<Issue>, list: seq<Issue>, n: nat) {
    forall i :: i in issues ==> Loaded(list[..Min(n, |list|)], i.id)
  }

  function IssueIds(issues: seq<Issue>): seq<string> {
    seq(|issues|, k requires 0 <= k < |issues| => issues[k].id)
  }

  lemma IdsAreLoaded(issues: seq<Issue>, id: string)
    ensures id in IssueIds(issues) <==> Loaded(issues, id)
  {
    if Loaded(issues, id) {
      var k :| 0 <= k < |issues| && issues[k].id == id;
      assert IssueIds(issues)[k] == id;
    }
  }

  /** Of two equally long lists of distinct issues, one covers the other if the other covers it. */
  lemma SameSizeCovers(a: seq<Issue>, b: seq<Issue>)
    requires DistinctIssues(a) && DistinctIssues(b) && |a| == |b|
    requires forall i :: i in a ==> Loaded(b, i.id)
    ensures forall j :: j in b ==> Loaded(a, j.id)
  {
    var x, y := IssueIds(a), IssueIds(b);
    forall id | id in x
      ensures id in y
    {
      var k :| 0 <= k < |a| && x[k] == id;
      IdsAreLoaded(b, a[k].id);
    }
    forall j | j in b
      ensures Loaded(a, j.id)
    {
      var k :| 0 <= k < |b| && b[k] == j;
      assert y[k] == j.id;
      IdsAreLoaded(a, j.id);
      if j.id !in x {
        FitWithout(x, y, j.id);
      }
    }
  }

  /** With distinct ids, the server's first |loaded| issues are loaded exactly when nothing else is. */
  lemma FirstLoadedExactlyWhenAllAmong(issues: seq<Issue>, list: seq<Issue>)
    requires DistinctIssues(issues) && DistinctIssues(list) && |issues| <= |list|
    ensures FirstLoaded(issues, list, |issues|) <==> AllAmongFirst(issues, list, |issues|)
  {
    var first := list[..|issues|];
    if FirstLoaded(issues, list, |issues|) {
      forall i | i in first
        ensures Loaded(issues, i.id)
      {
        var j :| 0 <= j < |first| && first[j] == i;
        assert list[j] == i;
      }
      SameSizeCovers(first, issues);
    }
    if AllAmongFirst(issues, list, |issues|) {
      SameSizeCovers(issues, first);
      assert forall j :: 0 <= j < |issues| ==> list[j] == first[j] && first[j] in first;
    }
  }

  lemma ExtendLoadsWindow(b: Bucket, list: seq<Issue>, j: nat)
    requires DistinctIssues(list) && |b.issues| <= |list| && j < |list|
    ensures Loaded(Extend(b, Exact(list, |b.issues|, PAGE_SIZE)).issues, list[j].id)
      <==> Loaded(b.issues, list[j].id) || |b.issues| <= j < |b.issues| + PAGE_SIZE
  {
    ExtendLoads(b, Exact(list, |b.issues|, PAGE_SIZE), list[j].id);
    WindowLoads(list, |b.issues|, PAGE_SIZE, j);
  }

  /** Whatever is loaded: the next page completes the server's first |loaded| + 50 issues exactly when
      every loaded issue is among the server's first |loaded|. Past the end of the server's list a page
      brings nothing. */
  lemma ExtendIsCompleteExactlyWhenLoadedAreFirst(b: Bucket, list: seq<Issue>)
    requires DistinctIssues(b.issues) && DistinctIssues(list)
    ensures var k, next := |b.issues|, Extend(b, Exact(list, |b.issues|, PAGE_SIZE));
      if k <= |list| then FirstLoaded(next.issues, list, k + PAGE_SIZE) <==> AllAmongFirst(b.issues, list, k)
      else next.issues == b.issues
  {
    var k := |b.issues|;
    if k <= |list| {
      FirstLoadedExactlyWhenAllAmong(b.issues, list);
      forall j | 0 <= j < |list|
        ensures Loaded(Extend(b, Exact(list, k, PAGE_SIZE)).issues, list[j].id)
          <==> Loaded(b.issues, list[j].id) || k <= j < k + PAGE_SIZE
      {
        ExtendLoadsWindow(b, list, j);
      }
    } else {
      assert Window(list, k, PAGE_SIZE) == [];
    }
  }

  // ----- an issue that arrives at the end of a partly loaded column --------------------------------

  function Skipping(list: seq<Issue>, n: nat): seq<Issue>
    requires n < |list|
  {
    list[..n] + list[n + 1..]
  }

  /** The column after the event that creates `list[n]`, when the first `k` of the others were loaded. */
  function WithCreated(list: seq<Issue>, k: nat, n: nat): Buckets
    requires n < |list| && k < |list|
  {
    AddIssueToBuckets(map[list[n].status := Bucket(Skipping(list, n)[..k], |list| - 1)], list[n])
  }

  lemma SkippingMembers(list: seq<Issue>, k: nat, n: nat)
    requires DistinctIssues(list) && n < |list| && k < |list|
    ensures var front := Skipping(list, n)[..k];
      && DistinctIssues(front)
      && (forall i :: i in front ==> i.id != list[n].id && i in list[..k + 1])
  {
    var front := Skipping(list, n)[..k];
    forall j | 0 <= j < |front|
      ensures front[j] == list[if j < n then j else j + 1]
    {
    }
    forall i | i in front
      ensures i.id != list[n].id && i in list[..k + 1]
    {
      var j :| 0 <= j < |front| && front[j] == i;
      var at := if j < n then j else j + 1;
      assert list[..k + 1][at] == i;
    }
  }

  lemma CreatedIsAppended(list: seq<Issue>, k: nat, n: nat)
    requires DistinctIssues(list) && n < |list| && k < |list|
    ensures GetBucket(WithCreated(list, k, n), list[n].status) == Bucket(Skipping(list, n)[..k] + [list[n]], |list|)
    ensures DistinctIssues(Skipping(list, n)[..k] + [list[n]])
  {
    SkippingMembers(list, k, n);
    FindIssueFinds(Skipping(list, n)[..k], list[n].id);
  }

  /** A created issue is appended wherever the server lists it: the next page then leaves a gap exactly
      when the server lists it behind what was loaded. */
  lemma CreatedSkipsExactlyWhenBeyond(list: seq<Issue>, k: nat, n: nat)
    requires DistinctIssues(list) && n < |list| && k < |list|
    ensures var b := GetBucket(WithCreated(list, k, n), list[n].status);
      && |b.issues| == k + 1
      && (FirstLoaded(Extend(b, Exact(list, k + 1, PAGE_SIZE)).issues, list, k + 1 + PAGE_SIZE) <==> n <= k)
  {
    var b := GetBucket(WithCreated(list, k, n), list[n].status);
    CreatedIsAppended(list, k, n);
    ExtendIsCompleteExactlyWhenLoadedAreFirst(b, list);
    CreatedIsAmongFirst(list, k, n);
  }

  lemma CreatedIsAmongFirst(list: seq<Issue>, k: nat, n: nat)
    requires DistinctIssues(list) && n < |list| && k < |list|
    ensures AllAmongFirst(Skipping(list, n)[..k] + [list[n]], list, k + 1) <==> n <= k
  {
    var front := Skipping(list, n)[..k];
    SkippingMembers(list, k, n);
    assert list[n] in front + [list[n]] by { assert (front + [list[n]])[k] == list[n]; }
    if n <= k {
      assert list[..k + 1][n] == list[n];
    } else {
      LaterIsFresh(list, k + 1, n);
    }
  }

  /** The server's issue `k` is not loaded although the column asks from behind it on. */
  ghost predicate Misses(b: Bucket, list: seq<Issue>, k: nat) {
    && k < |list| && k < |b.issues| && b.total == |list|
    && DistinctIssues(b.issues) && (forall i :: i in b.issues ==> i in list)
    && !Loaded(b.issues, list[k].id)
  }

  lemma DistinctIssuesDiffer(issues: seq<Issue>)
    requires DistinctIssues(issues)
    ensures NoDuplicates(issues)
  {
  }

  lemma MissingOffersMore(b: Bucket, list: seq<Issue>, k: nat)
    requires Misses(b, list, k)
    ensures HasMore(b)
  {
    DistinctIssuesDiffer(b.issues);
    assert list[k] in list;
    FitWithout(b.issues, list, list[k]);
  }

  lemma UnseenDistinct(loaded: seq<Issue>, page: seq<Issue>)
    requires DistinctIssues(loaded) && DistinctIssues(page)
    ensures DistinctIssues(loaded + Unseen(loaded, page))
  {
    UnseenMembers(loaded, page);
    UnseenKeepsDistinct(loaded, page);
    var all, added := loaded + Unseen(loaded, page), Unseen(loaded, page);
    forall i, j | 0 <= i < j < |all|
      ensures all[i].id != all[j].id
    {
      if i < |loaded| <= j {
        assert all[j] in added && loaded[i] in loaded;
      }
    }
  }

  lemma {:induction false} UnseenKeepsDistinct(loaded: seq<Issue>, page: seq<Issue>)
    requires DistinctIssues(page)
    ensures DistinctIssues(Unseen(loaded, page))
  {
    if |page| > 0 {
      var rest := Unseen(loaded, page[1..]);
      UnseenKeepsDistinct(loaded, page[1..]);
      UnseenMembers(loaded, page[1..]);
      forall k | 0 <= k < |rest|
        ensures rest[k].id != page[0].id
      {
        assert rest[k] in rest && rest[k] in page[1..];
      }
    }
  }

  lemma LoadKeepsMissing(b: Bucket, list: seq<Issue>, k: nat)
    requires DistinctIssues(list) && Misses(b, list, k)
    ensures Misses(Extend(b, Exact(list, |b.issues|, PAGE_SIZE)), list, k)
  {
    var page := Window(list, |b.issues|, PAGE_SIZE);
    MissingOffersMore(b, list, k);
    ExtendLoadsWindow(b, list, k);
    UnseenMembers(b.issues, page);
    UnseenDistinct(b.issues, page);
  }

  /** For ever after, whatever is loaded: the column offers more and never loads the missed issue. */
  lemma {:induction false} MissedIsNeverLoaded(c: Buckets, lists: Status -> seq<Issue>, loads: seq<Status>,
                                               s: Status, k: nat)
    requires DistinctIssues(lists(s)) && Misses(GetBucket(c, s), lists(s), k)
    ensures var b := GetBucket(LoadAll(c, loads, ServeFrom(lists)), s);
      Misses(b, lists(s), k) && HasMore(b)
  {
    if |loads| == 0 {
      MissingOffersMore(GetBucket(c, s), lists(s), k);
    } else {
      var front, last := loads[..|loads| - 1], loads[|loads| - 1];
      MissedIsNeverLoaded(c, lists, front, s, k);
      var before := LoadAll(c, front, ServeFrom(lists));
      if last == s {
        LoadKeepsMissing(GetBucket(before, s), lists(s), k);
        MissingOffersMore(GetBucket(LoadMore(before, s, ServeFrom(lists)), s), lists(s), k);
      } else {
        assert GetBucket(LoadMore(before, last, ServeFrom(lists)), s) == GetBucket(before, s);
      }
    }
  }

  /** Such a column, from a created issue that the server lists behind what was loaded: no run of loads
      ever brings the server's issue `k`. */
  lemma CreatedIssueHidesAnother(lists: Status -> seq<Issue>, s: Status, k: nat, n: nat, loads: seq<Status>)
    requires DistinctIssues(lists(s)) && k < n < |lists(s)| && lists(s)[n].status == s
    ensures var b := GetBucket(LoadAll(WithCreated(lists(s), k, n), loads, ServeFrom(lists)), s);
      HasMore(b) && !Loaded(b.issues, lists(s)[k].id)
  {
    var list, c := lists(s), WithCreated(lists(s), k, n);
    var front := Skipping(list, n)[..k];
    CreatedIsAppended(list, k, n);
    SkippingMembers(list, k, n);
    assert front == list[..k];
    LaterIsFresh(list, k, k);
    assert !Loaded(front + [list[n]], list[k].id);
    MissedIsNeverLoaded(c, lists, loads, s, k);
  }

  /** The end of it: with one issue missed and all others loaded, loading changes nothing, and more is
      offered all the same. */
  lemma StuckColumn(b: Bucket, list: seq<Issue>, k: nat)
    requires DistinctIssues(list) && Misses(b, list, k) && |b.issues| == |list| - 1
    ensures HasMore(b) && Extend(b, Exact(list, |b.issues|, PAGE_SIZE)) == b
  {
    var page, last := Window(list, |b.issues|, PAGE_SIZE), list[|list| - 1];
    assert page == [last];
    MissingOffersMore(b, list, k);
    if !Loaded(b.issues, last.id) {
      DistinctIssuesDiffer(b.issues);
      assert k < |list| - 1;
      NoDuplicatesConcat(b.issues, [last]);
      assert list[k].id != last.id;
      FitWithout(b.issues + [last], list, list[k]);
    }
    assert Unseen(b.issues, page[1..]) == [];
  }

  // ----- pages among the other changes ---------------------------------------------------------------

  /** The column of `s` after a page has arrived for it. */
  function WithPage(c: Buckets, s: Status, res: Page): Buckets {
    SetBucket(c, s, Extend(GetBucket(c, s), res))
  }

  function Added(c: Buckets, s: Status, res: Page): seq<Issue> {
    Unseen(GetBucket(c, s).issues, res.issues)
  }

  /** What the page adds are distinct issues of status `s` that no column shows, and with them the
      column holds no more than the total announced. */
  ghost predicate PageFits(c: Buckets, s: Status, res: Page) {
    && DistinctIssues(Added(c, s, res))
    && (forall i :: i in Added(c, s, res) ==> i.status == s && i.id !in View(c))
    && |GetBucket(c, s).issues| + |Added(c, s, res)| <= res.total
  }

  lemma FittingBucketIsOk(c: Buckets, s: Status, res: Page)
    requires WellFormed(c) && Visible(s) && PageFits(c, s, res)
    ensures BucketOk(s, Extend(GetBucket(c, s), res))
  {
    var b, added := GetBucket(c, s), Added(c, s, res);
    assert StatusOk(c, s);
    UnseenMembers(b.issues, res.issues);
    var all := b.issues + added;
    forall i, j | 0 <= i < j < |all|
      ensures all[i].id != all[j].id
    {
      if i < |b.issues| <= j {
        assert all[j] in added && all[i] in b.issues;
      }
    }
  }

  lemma FittingPageIsSafe(c: Buckets, s: Status, res: Page)
    requires WellFormed(c) && Visible(s) && PageFits(c, s, res)
    ensures WellFormed(WithPage(c, s, res))
  {
    var next := WithPage(c, s, res);
    FittingBucketIsOk(c, s, res);
    ViewHolds(c);
    forall t | Visible(t)
      ensures StatusOk(next, t)
    {
      assert t != s ==> GetBucket(next, t) == GetBucket(c, t) && StatusOk(c, t);
    }
    forall t, u | Visible(t) && Visible(u) && t != u
      ensures Apart(next, t, u)
    {
      forall i, j | i in GetBucket(next, t).issues && j in GetBucket(next, u).issues
        ensures i.id != j.id
      {
        PageShows(c, s, res, t, i);
        PageShows(c, s, res, u, j);
        if Located(c, t, i) && Located(c, u, j) && i.id == j.id {
          ShownOnlyOnce(c, t, i, u, j);
        }
      }
    }
  }

  lemma PageShows(c: Buckets, s: Status, res: Page, t: Status, i: Issue)
    requires Visible(s)
    ensures Located(WithPage(c, s, res), t, i) <==> Located(c, t, i) || (t == s && i in Added(c, s, res))
  {
    if t == s {
      assert GetBucket(WithPage(c, s, res), t).issues == GetBucket(c, s).issues + Added(c, s, res);
    } else {
      assert GetBucket(WithPage(c, s, res), t) == GetBucket(c, t);
    }
  }

  lemma SafePageIsNew(c: Buckets, s: Status, res: Page, i: Issue)
    requires WellFormed(c) && Visible(s) && WellFormed(WithPage(c, s, res)) && i in Added(c, s, res)
    ensures i.id !in View(c)
  {
    UnseenMembers(GetBucket(c, s).issues, res.issues);
    ViewHolds(c);
    if i.id in View(c) {
      var other := View(c)[i.id];
      PageShows(c, s, res, s, i);
      PageShows(c, s, res, other.status, other);
      ShownOnlyOnce(WithPage(c, s, res), other.status, other, s, i);
    }
  }

  lemma OkTail(s: Status, loaded: seq<Issue>, added: seq<Issue>, total: int)
    requires BucketOk(s, Bucket(loaded + added, total))
    ensures DistinctIssues(added) && (forall i :: i in added ==> i.status == s) && |loaded| + |added| <= total
  {
    assert forall k :: 0 <= k < |added| ==> added[k] == (loaded + added)[|loaded| + k];
  }

  lemma SafePageFits(c: Buckets, s: Status, res: Page)
    requires WellFormed(c) && Visible(s) && WellFormed(WithPage(c, s, res))
    ensures PageFits(c, s, res)
  {
    assert StatusOk(WithPage(c, s, res), s);
    OkTail(s, GetBucket(c, s).issues, Added(c, s, res), res.total);
    forall i | i in Added(c, s, res)
      ensures i.id !in View(c)
    {
      SafePageIsNew(c, s, res, i);
    }
  }

  /** Ids are compared within the column only: whether a page that arrives, whatever it holds, keeps the
      cache well formed is exactly whether it fits. */
  lemma PageIsSafeExactlyWhenItFits(c: Buckets, s: Status, res: Page)
    requires WellFormed(c) && Visible(s)
    ensures WellFormed(WithPage(c, s, res)) <==> PageFits(c, s, res)
  {
    if PageFits(c, s, res) {
      FittingPageIsSafe(c, s, res);
    }
    if WellFormed(WithPage(c, s, res)) {
      SafePageFits(c, s, res);
    }
  }

  /** An issue that was moved on the server arrives under its new status while the old column shows it. */
  lemma MovedIssueIsShownTwice(issue: Issue, s: Status)
    requires Visible(issue.status) && Visible(s) && s != issue.status
    ensures var c := AddIssueToBuckets(map[], issue);
      WellFormed(c) && !WellFormed(WithPage(c, s, Page([issue.(status := s)], 1)))
  {
    var c, moved := AddIssueToBuckets(map[], issue), issue.(status := s);
    NothingShown();
    AddRefines(map[], issue);
    assert View(c)[issue.id] == issue;
    var res := Page([moved], 1);
    assert Added(c, s, res) == [moved] by {
      assert GetBucket(c, s) == Bucket([], 0) && !Loaded([], moved.id);
      assert res.issues[1..] == [] && Unseen([], res.issues[1..]) == [];
    }
    assert moved in Added(c, s, res);
    PageIsSafeExactlyWhenItFits(c, s, res);
  }

  /** The issues of a page that are not in the map yet. */
  function NewTo(m: map<string, Issue>, issues: seq<Issue>): seq<Issue> {
    if |issues| == 0 then [] else
      (if issues[0].id in m then [] else [issues[0]]) + NewTo(m, issues[1..])
  }

  lemma {:induction false} FittingPageIsNew(loaded: seq<Issue>, m: map<string, Issue>, issues: seq<Issue>)
    requires forall i :: i in loaded ==> i.id in m
    requires forall i :: i in Unseen(loaded, issues) ==> i.id !in m
    ensures Unseen(loaded, issues) == NewTo(m, issues)
  {
    if |issues| > 0 {
      FittingPageIsNew(loaded, m, issues[1..]);
    }
  }

  /** A page that fits inserts what the map does not hold yet. */
  lemma PageRefines(c: Buckets, s: Status, res: Page)
    requires WellFormed(c) && Visible(s) && PageFits(c, s, res)
    ensures WellFormed(WithPage(c, s, res))
    ensures View(WithPage(c, s, res)) == View(c) + IssueMap(NewTo(View(c), res.issues))
    ensures |View(WithPage(c, s, res))| == |View(c)| + |Added(c, s, res)|
  {
    var next, added := WithPage(c, s, res), Added(c, s, res);
    FittingPageIsSafe(c, s, res);
    ViewHolds(c);
    IssueMapHolds(added);
    var m := View(c) + IssueMap(added);
    forall t, i
      ensures Located(next, t, i) <==> Located(c, t, i) || (t == s && i in added)
    {
      PageShows(c, s, res, t, i);
    }
    ViewIs(next, m);
    assert forall i :: i in GetBucket(c, s).issues ==> Located(c, s, i);
    FittingPageIsNew(GetBucket(c, s).issues, View(c), res.issues);
    IssueMapSize(added);
    DisjointSize(View(c), IssueMap(added));
  }

  lemma {:induction false} IssueMapSize(issues: seq<Issue>)
    requires DistinctIssues(issues)
    ensures |IssueMap(issues)| == |issues|
  {
    if |issues| > 0 {
      var n := |issues| - 1;
      IssueMapSize(issues[..n]);
      IssueMapHolds(issues[..n]);
      assert issues[n].id !in IssueMap(issues[..n]);
      MapInsertSize(IssueMap(issues[..n]), issues[n].id, issues[n]);
    }
  }

  lemma DisjointSize(a: map<string, Issue>, b: map<string, Issue>)
    requires a.Keys !! b.Keys
    ensures |a + b| == |a| + |b|
  {
    assert (a + b).Keys == a.Keys + b.Keys;
    assert |(a + b).Keys| == |a + b| && |a.Keys| == |a| && |b.Keys| == |b|;
  }

  /** Changes of a cached list: an add, removal or patch, or the arrival of a page. */
  datatype Step = Edit(op: Op) | Arrives(s: Status, res: Page)

  function StepOn(c: Buckets, step: Step): Buckets {
    match step
    case Edit(op) => Apply(c, op)
    case Arrives(s, res) => WithPage(c, s, res)
  }

  function StepOnMap(m: map<string, Issue>, step: Step): map<string, Issue> {
    match step
    case Edit(op) => ApplyToMap(m, op)
    case Arrives(s, res) => m + IssueMap(NewTo(m, res.issues))
  }

  function Steps(c: Buckets, steps: seq<Step>): Buckets
    decreases |steps|
  {
    if |steps| == 0 then c else Steps(StepOn(c, steps[0]), steps[1..])
  }

  function StepsOnMap(m: map<string, Issue>, steps: seq<Step>): map<string, Issue>
    decreases |steps|
  {
    if |steps| == 0 then m else StepsOnMap(StepOnMap(m, steps[0]), steps[1..])
  }

  ghost predicate StepIsSafe(c: Buckets, step: Step) {
    match step
    case Edit(op) => Allowed(View(c), op)
    case Arrives(s, res) => Visible(s) && PageFits(c, s, res)
  }

  ghost predicate StepsAreSafe(c: Buckets, steps: seq<Step>)
    decreases |steps|
  {
    |steps| == 0 || (StepIsSafe(c, steps[0]) && StepsAreSafe(StepOn(c, steps[0]), steps[1..]))
  }

  /** How many issues the server announces and no column shows. */
  function Unshown(c: Buckets): int {
    VisibleTotal(c) - |View(c)|
  }

  /** By how much a page corrects that number. */
  function Correction(c: Buckets, step: Step): int {
    match step
    case Edit(_) => 0
    case Arrives(s, res) => res.total - Total(c, s) - |Added(c, s, res)|
  }

  function Corrections(c: Buckets, steps: seq<Step>): int
    decreases |steps|
  {
    if |steps| == 0 then 0 else Correction(c, steps[0]) + Corrections(StepOn(c, steps[0]), steps[1..])
  }

  lemma SafeStepRefines(c: Buckets, step: Step)
    requires WellFormed(c) && StepIsSafe(c, step)
    ensures var next := StepOn(c, step);
      WellFormed(next) && View(next) == StepOnMap(View(c), step) && Unshown(next) == Unshown(c) + Correction(c, step)
  {
    match step
    case Edit(op) => StepRefines(c, op);
    case Arrives(s, res) =>
      PageRefines(c, s, res);
      SetTotals(c, s, Extend(GetBucket(c, s), res));
  }

  /** Pages may arrive between adds, removals and patches: over every run whose pages fit, the cache
      stays well formed and acts as a plain map, and the number of issues announced but not shown
      changes by the pages' corrections alone. */
  lemma {:induction false} MixedRunRefines(c: Buckets, steps: seq<Step>)
    requires WellFormed(c) && StepsAreSafe(c, steps)
    ensures var next := Steps(c, steps);
      && WellFormed(next) && View(next) == StepsOnMap(View(c), steps)
      && Unshown(next) == Unshown(c) + Corrections(c, steps)
    decreases |steps|
  {
    if steps != [] {
      SafeStepRefines(c, steps[0]);
      MixedRunRefines(StepOn(c, steps[0]), steps[1..]);
    }
  }
}
