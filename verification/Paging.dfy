/** Walking the server's limit/offset windows: the Gantt fetch, and loading more of a bucket. */
module Paging {
  import opened Prelude
  import opened IssueBuckets

  const GANTT_LIMIT: nat := 500
  const GANTT_MAX: nat := 10000
  const PAGE_SIZE: nat := 50

  datatype Page = Page(issues: seq<Issue>, total: int)

  function Window(list: seq<Issue>, offset: nat, limit: nat): seq<Issue> {
    list[Min(offset, |list|)..Min(offset + limit, |list|)]
  }

  /** What an exact server answers. */
  function Exact(list: seq<Issue>, offset: nat, limit: nat): Page {
    Page(Window(list, offset, limit), |list|)
  }

  lemma WindowExtends(list: seq<Issue>, k: nat, limit: nat)
    requires k <= |list|
    ensures list[..k] + Window(list, k, limit) == list[..Min(k + limit, |list|)]
  {
  }

  // ----- the Gantt fetch -----------------------------------------------------------------

  /** The first `n` pages, one after the other. */
  function Joined(serve: nat -> Page, n: nat): seq<Issue> {
    if n == 0 then [] else Joined(serve, n - 1) + serve(GANTT_LIMIT * (n - 1)).issues
  }

  /** How many issues the first `n` pages bring. */
  function Received(serve: nat -> Page, n: nat): nat {
    if n == 0 then 0 else Received(serve, n - 1) + |serve(GANTT_LIMIT * (n - 1)).issues|
  }

  lemma {:induction false} JoinedHoldsReceived(serve: nat -> Page, n: nat)
    ensures |Joined(serve, n)| == Received(serve, n)
  {
    if n > 0 {
      JoinedHoldsReceived(serve, n - 1);
    }
  }

  /** Page `k` is the last one asked for: it is short, or everything announced has arrived. */
  predicate Stops(serve: nat -> Page, k: nat) {
    var page := serve(GANTT_LIMIT * k);
    |page.issues| < GANTT_LIMIT || |Joined(serve, k + 1)| >= page.total
  }

  /** For any server, exact or not: the page is short, or at least as many issues have arrived, this page
      included, as it announces. */
  lemma StopsAtShortPageOrTotal(serve: nat -> Page, k: nat)
    ensures Stops(serve, k) <==>
      |serve(500 * k).issues| < 500 || Received(serve, k + 1) >= serve(500 * k).total
  {
    JoinedHoldsReceived(serve, k + 1);
  }

  /** For any server: at most twenty requests, each for the next window, up to the first page
      that says to stop; the answers are joined in order. */
  method FetchProjectGanttIssues(serve: nat -> Page) returns (issues: seq<Issue>, offsets: seq<nat>)
    ensures 1 <= |offsets| <= 20 && forall k :: 0 <= k < |offsets| ==> offsets[k] == GANTT_LIMIT * k
    ensures issues == Joined(serve, |offsets|)
    ensures forall k :: 0 <= k < |offsets| - 1 ==> !Stops(serve, k)
    ensures |offsets| < 20 ==> Stops(serve, |offsets| - 1)
  {
    issues, offsets := [], [];
    var offset := 0;
    while offset < GANTT_MAX
      invariant offset == GANTT_LIMIT * |offsets| && offset <= GANTT_MAX
      invariant forall k :: 0 <= k < |offsets| ==> offsets[k] == GANTT_LIMIT * k && !Stops(serve, k)
      invariant issues == Joined(serve, |offsets|)
      decreases GANTT_MAX - offset
    {
      var res := serve(offset);
      offsets := offsets + [offset];
      issues := issues + res.issues;
      if |res.issues| < GANTT_LIMIT { break; }
      if |issues| >= res.total { break; }
      offset := offset + GANTT_LIMIT;
    }
  }

  ghost predicate ServesExactly(serve: nat -> Page, list: seq<Issue>) {
    forall k: nat {:trigger serve(GANTT_LIMIT * k)} ::
      serve(GANTT_LIMIT * k) == Exact(list, GANTT_LIMIT * k, GANTT_LIMIT)
  }

  lemma {:induction false} ExactPagesJoin(serve: nat -> Page, list: seq<Issue>, n: nat)
    requires ServesExactly(serve, list)
    ensures Joined(serve, n) == list[..Min(GANTT_LIMIT * n, |list|)]
  {
    if n > 0 {
      ExactPagesJoin(serve, list, n - 1);
      assert serve(GANTT_LIMIT * (n - 1)) == Exact(list, GANTT_LIMIT * (n - 1), GANTT_LIMIT);
      if GANTT_LIMIT * (n - 1) <= |list| {
        WindowExtends(list, GANTT_LIMIT * (n - 1), GANTT_LIMIT);
      }
    }
  }

  /** Against exact windows over a fixed list the fetch returns its first 10000 issues, in order. */
  lemma GanttFetchesAll(serve: nat -> Page, list: seq<Issue>, n: nat)
    requires ServesExactly(serve, list) && 1 <= n <= 20
    requires n < 20 ==> Stops(serve, n - 1)
    ensures Joined(serve, n) == list[..Min(|list|, GANTT_MAX)]
  {
    ExactPagesJoin(serve, list, n);
    assert serve(GANTT_LIMIT * (n - 1)) == Exact(list, GANTT_LIMIT * (n - 1), GANTT_LIMIT);
  }

  // ----- loading more ----------------------------------------------------------------------

  predicate Loaded(issues: seq<Issue>, id: string) {
    exists i :: i in issues && i.id == id
  }

  /** The issues not loaded yet. */
  function Unseen(loaded: seq<Issue>, issues: seq<Issue>): seq<Issue> {
    if |issues| == 0 then [] else
      (if Loaded(loaded, issues[0].id) then [] else [issues[0]]) + Unseen(loaded, issues[1..])
  }

  predicate HasMore(b: Bucket) {
    |b.issues| < b.total
  }

  function Extend(b: Bucket, res: Page): Bucket {
    Bucket(b.issues + Unseen(b.issues, res.issues), res.total)
  }

  /** One "load more" of a column; without more to load it is a no-op. */
  function LoadMore(c: Buckets, s: Status, serve: (Status, nat) -> Page): Buckets {
    var b := GetBucket(c, s);
    if HasMore(b) then SetBucket(c, s, Extend(b, serve(s, |b.issues|))) else c
  }

  /** Whatever the server: without more to load nothing changes; else the column keeps what it holds, in order,
      takes over the announced total, and no other column changes. */
  lemma LoadMoreKeepsLoaded(c: Buckets, s: Status, serve: (Status, nat) -> Page)
    ensures var b, next := GetBucket(c, s), LoadMore(c, s, serve);
      if |b.issues| >= b.total then next == c
      else
        && b.issues <= GetBucket(next, s).issues && GetBucket(next, s).total == serve(s, |b.issues|).total
        && forall t :: t != s ==> GetBucket(next, t) == GetBucket(c, t)
  {
  }

  lemma {:induction false} UnseenOfFresh(loaded: seq<Issue>, issues: seq<Issue>)
    requires forall i :: i in issues ==> !Loaded(loaded, i.id)
    ensures Unseen(loaded, issues) == issues
  {
    if |issues| > 0 {
      UnseenOfFresh(loaded, issues[1..]);
    }
  }

  lemma {:induction false} UnseenMembers(loaded: seq<Issue>, issues: seq<Issue>)
    ensures forall i :: i in Unseen(loaded, issues) <==> i in issues && !Loaded(loaded, i.id)
  {
    if |issues| > 0 {
      UnseenMembers(loaded, issues[1..]);
    }
  }

  lemma LaterIsFresh(list: seq<Issue>, k: nat, j: nat)
    requires DistinctIssues(list) && k <= j < |list|
    ensures !Loaded(list[..k], list[j].id)
  {
  }

  /** A bucket that is a prefix of the server's list grows by the next page, in order, and takes
      over the server's total whatever total it had. */
  lemma ExtendGrowsPrefix(list: seq<Issue>, k: nat, total: int)
    requires DistinctIssues(list) && k <= |list|
    ensures Extend(Bucket(list[..k], total), Exact(list, k, PAGE_SIZE))
         == Bucket(list[..Min(k + PAGE_SIZE, |list|)], |list|)
  {
    var page := Window(list, k, PAGE_SIZE);
    forall i | i in page
      ensures !Loaded(list[..k], i.id)
    {
      var j :| 0 <= j < |page| && page[j] == i;
      LaterIsFresh(list, k, k + j);
    }
    UnseenOfFresh(list[..k], page);
    WindowExtends(list, k, PAGE_SIZE);
  }

  lemma ExtendLoads(b: Bucket, res: Page, id: string)
    ensures Loaded(Extend(b, res).issues, id) <==> Loaded(b.issues, id) || Loaded(res.issues, id)
  {
    UnseenMembers(b.issues, res.issues);
    var next := Extend(b, res).issues;
    if Loaded(b.issues, id) {
      var i :| i in b.issues && i.id == id;
      assert i in next;
    } else if Loaded(res.issues, id) {
      var i :| i in res.issues && i.id == id;
      assert i in next;
    }
  }

  lemma WindowLoads(list: seq<Issue>, k: nat, limit: nat, j: nat)
    requires DistinctIssues(list) && k <= |list| && j < |list|
    ensures Loaded(Window(list, k, limit), list[j].id) <==> k <= j < k + limit
  {
    var page := Window(list, k, limit);
    if k <= j < k + limit {
      assert page[j - k] == list[j];
    }
    forall i | i in page && i.id == list[j].id
      ensures k <= j < k + limit
    {
      var m :| 0 <= m < |page| && page[m] == i;
    }
  }

  // ----- whole runs ------------------------------------------------------------------------

  /** A fixed server: distinct ids throughout, and each list holds issues of its status only. */
  ghost predicate GoodServer(lists: Status -> seq<Issue>) {
    && (forall s :: DistinctIssues(lists(s)) && forall i :: i in lists(s) ==> i.status == s)
    && (forall s, t, i, j :: s != t && i in lists(s) && j in lists(t) ==> i.id != j.id)
  }

  function ServeFrom(lists: Status -> seq<Issue>): (Status, nat) -> Page {
    (s: Status, offset: nat) => Exact(lists(s), offset, PAGE_SIZE)
  }

  function FirstPagesOf(statuses: seq<Status>, serve: (Status, nat) -> Page): Buckets {
    if |statuses| == 0 then map[] else
      var page := serve(statuses[0], 0);
      FirstPagesOf(statuses[1..], serve)[statuses[0] := Bucket(page.issues, page.total)]
  }

  /** The first page of every shown status. */
  function FetchFirstPages(serve: (Status, nat) -> Page): Buckets {
    FirstPagesOf(PAGINATED, serve)
  }

  function LoadAll(c: Buckets, loads: seq<Status>, serve: (Status, nat) -> Page): Buckets {
    if |loads| == 0 then c else LoadMore(LoadAll(c, loads[..|loads| - 1], serve), loads[|loads| - 1], serve)
  }

  function Count(loads: seq<Status>, s: Status): nat {
    if |loads| == 0 then 0 else
      Count(loads[..|loads| - 1], s) + if loads[|loads| - 1] == s then 1 else 0
  }

  /** How much of a list of length `n` is loaded after the first page and `more` further ones. */
  function Reach(n: nat, more: nat): nat {
    Min(PAGE_SIZE * (more + 1), n)
  }

  /** The bucket of `s` holds exactly the first `k` issues of the server's list. */
  ghost predicate HoldsPrefix(c: Buckets, s: Status, list: seq<Issue>, k: nat) {
    k <= |list| && GetBucket(c, s) == Bucket(list[..k], |list|)
  }

  lemma {:induction false} FirstPagesHold(statuses: seq<Status>, lists: Status -> seq<Issue>, s: Status)
    requires s in statuses
    ensures HoldsPrefix(FirstPagesOf(statuses, ServeFrom(lists)), s, lists(s), Reach(|lists(s)|, 0))
  {
    assert Window(lists(s), 0, PAGE_SIZE) == lists(s)[..Reach(|lists(s)|, 0)];
    if s != statuses[0] {
      FirstPagesHold(statuses[1..], lists, s);
    }
  }

  lemma LoadMoreHolds(c: Buckets, lists: Status -> seq<Issue>, s: Status, k: nat)
    requires DistinctIssues(lists(s)) && HoldsPrefix(c, s, lists(s), k)
    ensures HoldsPrefix(LoadMore(c, s, ServeFrom(lists)), s, lists(s), Min(k + PAGE_SIZE, |lists(s)|))
  {
    ExtendGrowsPrefix(lists(s), k, |lists(s)|);
  }

  /** However the loads are interleaved, a column holds exactly the prefix of the server's list
      that its own loads asked for. */
  lemma {:induction false} LoadsGrowPrefix(c: Buckets, lists: Status -> seq<Issue>, loads: seq<Status>, s: Status)
    requires DistinctIssues(lists(s)) && HoldsPrefix(c, s, lists(s), Reach(|lists(s)|, 0))
    ensures HoldsPrefix(LoadAll(c, loads, ServeFrom(lists)), s, lists(s), Reach(|lists(s)|, Count(loads, s)))
  {
    if |loads| > 0 {
      var front, last := loads[..|loads| - 1], loads[|loads| - 1];
      LoadsGrowPrefix(c, lists, front, s);
      var before := LoadAll(c, front, ServeFrom(lists));
      if last == s {
        LoadMoreHolds(before, lists, s, Reach(|lists(s)|, Count(front, s)));
      } else {
        assert GetBucket(LoadMore(before, last, ServeFrom(lists)), s) == GetBucket(before, s);
      }
    }
  }

  /** From the first pages, over every run of loads, the cache is well formed, and a column asked often
      enough shows the whole list and offers nothing more. */
  lemma LoadingKeepsWellFormed(lists: Status -> seq<Issue>, loads: seq<Status>)
    requires GoodServer(lists)
    ensures var c := LoadAll(FetchFirstPages(ServeFrom(lists)), loads, ServeFrom(lists));
      && WellFormed(c)
      && forall s :: Visible(s) && PAGE_SIZE * (Count(loads, s) + 1) >= |lists(s)| ==>
           GetBucket(c, s) == Bucket(lists(s), |lists(s)|) && !HasMore(GetBucket(c, s))
  {
    var first := FetchFirstPages(ServeFrom(lists));
    var c := LoadAll(first, loads, ServeFrom(lists));
    forall s | Visible(s)
      ensures HoldsPrefix(c, s, lists(s), Reach(|lists(s)|, Count(loads, s)))
    {
      PaginatedAreVisible(s);
      FirstPagesHold(PAGINATED, lists, s);
      LoadsGrowPrefix(first, lists, loads, s);
    }
    PrefixesAreWellFormed(c, lists);
  }

  lemma PrefixesAreWellFormed(c: Buckets, lists: Status -> seq<Issue>)
    requires GoodServer(lists)
    requires forall s :: Visible(s) ==> exists k: nat :: HoldsPrefix(c, s, lists(s), k)
    ensures WellFormed(c)
  {
    forall s | Visible(s)
      ensures StatusOk(c, s)
    {
      var k: nat :| HoldsPrefix(c, s, lists(s), k);
    }
    forall s, t | Visible(s) && Visible(t) && s != t
      ensures Apart(c, s, t)
    {
      forall i, j | i in GetBucket(c, s).issues && j in GetBucket(c, t).issues
        ensures i.id != j.id
      {
        assert i in lists(s) && j in lists(t);
      }
    }
  }
}
