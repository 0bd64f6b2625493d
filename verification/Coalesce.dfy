/** Coalescing of consecutive identical activity entries. */
module Coalesce {
  import opened Prelude
  import opened Timeline

  const COALESCE_MS := 2 * 60 * 1000

  predicate NoTimeLimit(action: string) {
    action == "task_completed" || action == "task_failed"
  }

  predicate NeverCoalesces(action: string) {
    action == "squad_leader_evaluated"
  }

  function ActionOf(e: Entry): string {
    if e.action.Some? then e.action.value else ""
  }

  /** The test made between an entry and the one before it. */
  predicate Mergeable(prev: Entry, e: Entry) {
    && e.kind.Activity? && !NeverCoalesces(ActionOf(e))
    && prev.kind.Activity? && prev.action == e.action
    && prev.actorType == e.actorType && prev.actorId == e.actorId
    && (NoTimeLimit(ActionOf(e)) || -COALESCE_MS <= e.createdAt - prev.createdAt <= COALESCE_MS)
  }

  function Weight(e: Entry): int {
    if e.coalescedCount.Some? then e.coalescedCount.value else 1
  }

  // ----- the runs ---------------------------------------------------------------

  /** A run of entries that merge one after the other. */
  datatype Run = Run(before: seq<Entry>, last: Entry) {
    function Members(): seq<Entry> { before + [last] }
  }

  /** One more entry joins the last run if it merges with that run's last entry. */
  function NextRuns(runs: seq<Run>, e: Entry): seq<Run> {
    if runs != [] && Mergeable(runs[|runs| - 1].last, e)
    then runs[..|runs| - 1] + [Run(runs[|runs| - 1].Members(), e)]
    else runs + [Run([], e)]
  }

  /** The timeline cut at each adjacent pair that does not merge. */
  function Runs(es: seq<Entry>): seq<Run> {
    if es == [] then [] else NextRuns(Runs(es[..|es| - 1]), es[|es| - 1])
  }

  /** A run is shown as its last entry, carrying the length of the run. */
  function Summary(run: Run): Entry {
    if run.before == [] then run.last
    else run.last.(coalescedCount := Some(Weight(run.before[0]) + |run.before|))
  }

  function Summaries(runs: seq<Run>): seq<Entry> {
    if runs == [] then [] else Summaries(runs[..|runs| - 1]) + [Summary(runs[|runs| - 1])]
  }

  /** One more entry either replaces the last summary, counting one more, or is added. */
  function Step(out: seq<Entry>, e: Entry): seq<Entry> {
    if out != [] && Mergeable(out[|out| - 1], e)
    then out[..|out| - 1] + [e.(coalescedCount := Some(Weight(out[|out| - 1]) + 1))]
    else out + [e]
  }

  lemma AddSummary(runs: seq<Run>, run: Run)
    ensures Summaries(runs + [run]) == Summaries(runs) + [Summary(run)]
  {
    assert (runs + [run])[..|runs|] == runs;
  }

  lemma AddEntry(front: seq<Entry>, e: Entry)
    ensures Runs(front + [e]) == NextRuns(Runs(front), e)
  {
    assert (front + [e])[..|front|] == front;
  }

  lemma SummariesOfNext(runs: seq<Run>, e: Entry)
    ensures Summaries(NextRuns(runs, e)) == Step(Summaries(runs), e)
  {
    if runs != [] && Mergeable(runs[|runs| - 1].last, e) {
      SplitLast(runs);
      MergedSummary(runs[..|runs| - 1], runs[|runs| - 1], e);
    } else {
      AddSummary(runs, Run([], e));
      if runs != [] {
        SummaryMerges(runs[|runs| - 1], e);
      }
    }
  }

  lemma MergedSummary(init: seq<Run>, last: Run, e: Entry)
    requires Mergeable(last.last, e)
    ensures Summaries(init + [Run(last.Members(), e)]) == Step(Summaries(init + [last]), e)
  {
    AddSummary(init, last);
    AddSummary(init, Run(last.Members(), e));
    SummaryMerges(last, e);
    DropLast(Summaries(init), Summary(last));
  }

  lemma SummariesStep(front: seq<Entry>, e: Entry)
    ensures Summaries(Runs(front + [e])) == Step(Summaries(Runs(front)), e)
  {
    AddEntry(front, e);
    SummariesOfNext(Runs(front), e);
  }

  lemma SummaryMerges(run: Run, e: Entry)
    ensures Mergeable(Summary(run), e) <==> Mergeable(run.last, e)
    ensures Summary(Run(run.Members(), e)) == e.(coalescedCount := Some(Weight(Summary(run)) + 1))
  {
  }

  function Steps(es: seq<Entry>): seq<Entry> {
    if es == [] then [] else Step(Steps(es[..|es| - 1]), es[|es| - 1])
  }

  lemma AddStep(front: seq<Entry>, e: Entry)
    ensures Steps(front + [e]) == Step(Steps(front), e)
  {
    assert (front + [e])[..|front|] == front;
  }

  lemma {:induction false} StepsAreSummaries(es: seq<Entry>)
    ensures Steps(es) == Summaries(Runs(es))
  {
    if es != [] {
      StepsAreSummaries(es[..|es| - 1]);
      SummariesStep(es[..|es| - 1], es[|es| - 1]);
      SplitLast(es);
    }
  }

  method CoalesceTimeline(entries: seq<Entry>) returns (out: seq<Entry>)
    ensures out == Summaries(Runs(entries))
  {
    out := [];
    for i := 0 to |entries|
      invariant out == Steps(entries[..i])
    {
      var entry := entries[i];
      assert entries[..i + 1][..i] == entries[..i];
      if entry.kind.Activity? && |out| > 0 && Mergeable(out[|out| - 1], entry) {
        var count := Weight(out[|out| - 1]) + 1;
        out := out[..|out| - 1] + [entry.(coalescedCount := Some(count))];
      } else {
        out := out + [entry];
      }
    }
    assert entries[..|entries|] == entries;
    StepsAreSummaries(entries);
  }

  function Join(runs: seq<Run>): seq<Entry> {
    if runs == [] then [] else Join(runs[..|runs| - 1]) + runs[|runs| - 1].Members()
  }

  /** Entry `i` merges with the one before it. */
  ghost predicate MergesAt(s: seq<Entry>, i: int) {
    0 < i < |s| ==> Mergeable(s[i - 1], s[i])
  }

  ghost predicate Chained(s: seq<Entry>) {
    forall i :: MergesAt(s, i)
  }

  /** Runs `i - 1` and `i` do not merge where they meet. */
  ghost predicate CutAt(runs: seq<Run>, i: int) {
    0 < i < |runs| ==> !Mergeable(runs[i - 1].last, runs[i].Members()[0])
  }

  /** `runs` cuts `es` exactly at the adjacent pairs that do not merge. */
  ghost predicate IsSplit(es: seq<Entry>, runs: seq<Run>) {
    && Join(runs) == es
    && (forall r :: r in runs ==> Chained(r.Members()))
    && (forall i :: CutAt(runs, i))
  }

  lemma JoinLast(runs: seq<Run>, run: Run)
    ensures Join(runs + [run]) == Join(runs) + run.Members()
  {
    assert (runs + [run])[..|runs|] == runs;
  }

  lemma AddRun(es: seq<Entry>, runs: seq<Run>, run: Run)
    requires IsSplit(es, runs) && Chained(run.Members())
    requires runs != [] ==> !Mergeable(runs[|runs| - 1].last, run.Members()[0])
    ensures IsSplit(es + run.Members(), runs + [run])
  {
    JoinLast(runs, run);
    forall i
      ensures CutAt(runs + [run], i)
    {
      assert CutAt(runs, i);
    }
  }

  lemma DropRun(es: seq<Entry>, runs: seq<Run>, run: Run)
    requires IsSplit(es, runs + [run])
    ensures IsSplit(Join(runs), runs) && es == Join(runs) + run.Members() && Chained(run.Members())
    ensures runs != [] ==> !Mergeable(runs[|runs| - 1].last, run.Members()[0])
  {
    JoinLast(runs, run);
    forall i
      ensures CutAt(runs, i)
    {
      assert CutAt(runs + [run], i);
    }
    assert CutAt(runs + [run], |runs|);
    assert run in runs + [run];
  }

  lemma GrowChain(s: seq<Entry>, e: Entry)
    requires s != []
    ensures Chained(s + [e]) <==> Chained(s) && Mergeable(s[|s| - 1], e)
  {
    var t := s + [e];
    if Chained(t) {
      forall i
        ensures MergesAt(s, i)
      {
        assert MergesAt(t, i);
      }
      assert MergesAt(t, |s|);
    }
    if Chained(s) && Mergeable(s[|s| - 1], e) {
      forall i
        ensures MergesAt(t, i)
      {
        assert MergesAt(s, i);
      }
    }
  }

  lemma GrowLastRun(es: seq<Entry>, init: seq<Run>, last: Run, e: Entry)
    requires IsSplit(es, init + [last]) && Mergeable(last.last, e)
    ensures IsSplit(es + [e], init + [Run(last.Members(), e)])
  {
    DropRun(es, init, last);
    GrowChain(last.Members(), e);
    AddRun(Join(init), init, Run(last.Members(), e));
    assert Join(init) + (last.Members() + [e]) == es + [e];
  }

  lemma {:induction false} RunsAreSplit(es: seq<Entry>)
    ensures IsSplit(es, Runs(es))
  {
    if es != [] {
      var front, e := es[..|es| - 1], es[|es| - 1];
      RunsAreSplit(front);
      SplitLast(es);
      AddEntry(front, e);
      var runs := Runs(front);
      if runs != [] && Mergeable(runs[|runs| - 1].last, e) {
        SplitLast(runs);
        GrowLastRun(front, runs[..|runs| - 1], runs[|runs| - 1], e);
      } else {
        AddSingleton(front, runs, e);
      }
    }
  }

  /** `e` is an activity with the same action by the same actor. */
  ghost predicate SameDoing(e: Entry, last: Entry) {
    && e.kind.Activity? && last.kind.Activity?
    && e.action == last.action && e.actorType == last.actorType && e.actorId == last.actorId
  }

  lemma {:induction false} ChainIsOneDoing(s: seq<Entry>, i: nat)
    requires Chained(s) && i < |s| && |s| > 1
    ensures SameDoing(s[i], s[|s| - 1]) && !NeverCoalesces(ActionOf(s[|s| - 1]))
    decreases |s| - i
  {
    assert MergesAt(s, |s| - 1);
    if i < |s| - 1 {
      ChainIsOneDoing(s, i + 1);
      assert MergesAt(s, i + 1);
    }
  }

  /** Nothing is counted under another action or actor: in a timeline cut where it does not merge,
      a run of more than one entry is one action by one actor, never one that must stay separate. */
  lemma RunsAreOneDoing(es: seq<Entry>, runs: seq<Run>, run: Run, i: nat)
    requires IsSplit(es, runs) && run in runs && i < |run.before|
    ensures SameDoing(run.before[i], run.last) && !NeverCoalesces(ActionOf(run.last))
  {
    ChainIsOneDoing(run.Members(), i);
  }

  lemma AddSingleton(es: seq<Entry>, runs: seq<Run>, e: Entry)
    requires IsSplit(es, runs) && (runs != [] ==> !Mergeable(runs[|runs| - 1].last, e))
    ensures IsSplit(es + [e], runs + [Run([], e)])
  {
    var run := Run([], e);
    assert run.Members() == [e];
    AddRun(es, runs, run);
  }

  /** There is only one such cut, so the runs are what the rule says they are. */
  lemma {:induction false} SplitIsUnique(es: seq<Entry>, runs: seq<Run>)
    requires IsSplit(es, runs)
    ensures runs == Runs(es)
    decreases |es|
  {
    if runs != [] {
      SplitLast(runs);
      var init, last := runs[..|runs| - 1], runs[|runs| - 1];
      DropRun(es, init, last);
      var front := Join(init) + last.before;
      assert es == front + [last.last];
      if last.before == [] {
        SplitIsUnique(front, init);
      } else {
        var m := |last.before| - 1;
        var shorter := Run(last.before[..m], last.before[m]);
        assert shorter.Members() == last.before;
        GrowChain(last.before, last.last);
        AddRun(Join(init), init, shorter);
        SplitIsUnique(front, init + [shorter]);
      }
      AddEntry(front, last.last);
    }
  }

  // ----- what coalescing keeps ------------------------------------------------------

  function TotalWeight(es: seq<Entry>): int {
    if es == [] then 0 else TotalWeight(es[..|es| - 1]) + Weight(es[|es| - 1])
  }

  lemma StepAddsOne(out: seq<Entry>, e: Entry)
    requires e.coalescedCount.None?
    ensures TotalWeight(Step(out, e)) == TotalWeight(out) + 1
  {
    var next := Step(out, e);
    assert next[..|next| - 1] == if |next| == |out| then out[..|out| - 1] else out;
  }

  /** On a timeline that carries no counts, the counts shown add up to the number of entries. */
  lemma {:induction false} CountsAddUp(es: seq<Entry>)
    requires forall e :: e in es ==> e.coalescedCount.None?
    ensures TotalWeight(Summaries(Runs(es))) == |es|
  {
    if es != [] {
      var front, e := es[..|es| - 1], es[|es| - 1];
      CountsAddUp(front);
      SplitLast(es);
      SummariesStep(front, e);
      StepAddsOne(Summaries(Runs(front)), e);
    }
  }

  function Comments(es: seq<Entry>): seq<Entry> {
    if es == [] then [] else
      var rest := Comments(es[..|es| - 1]);
      if es[|es| - 1].kind.Comment? then rest + [es[|es| - 1]] else rest
  }

  /** The comments of a timeline, in its order. */
  lemma {:induction false} CommentsFollow(es: seq<Entry>)
    ensures Follows(es, Comments(es)) && forall e :: e in Comments(es) <==> e in es && e.kind.Comment?
  {
    if es != [] {
      var front := es[..|es| - 1];
      CommentsFollow(front);
      FollowsSnoc(front, Comments(front), es[|es| - 1]);
      SplitLast(es);
    }
  }

  /** Every comment comes through unchanged and in order. */
  lemma {:induction false} CommentsSurvive(es: seq<Entry>)
    ensures Comments(Summaries(Runs(es))) == Comments(es)
  {
    if es != [] {
      var front, e := es[..|es| - 1], es[|es| - 1];
      CommentsSurvive(front);
      SplitLast(es);
      SummariesStep(front, e);
      var out := Summaries(Runs(front));
      assert Step(out, e)[..|Step(out, e)| - 1] == if |Step(out, e)| == |out| then out[..|out| - 1] else out;
    }
  }

  ghost predicate Ascending(es: seq<Entry>) {
    forall i, j :: 0 <= i <= j < |es| ==> es[i].createdAt <= es[j].createdAt
  }

  /** Entry `i` does not merge with the one before it. */
  ghost predicate ApartAt(es: seq<Entry>, i: int) {
    0 < i < |es| ==> !Mergeable(es[i - 1], es[i])
  }

  ghost predicate Apart(es: seq<Entry>) {
    forall i :: ApartAt(es, i)
  }

  lemma StepStaysApart(out: seq<Entry>, e: Entry)
    requires Apart(out) && Ascending(out) && (out != [] ==> out[|out| - 1].createdAt <= e.createdAt)
    ensures Apart(Step(out, e)) && Ascending(Step(out, e)) && Step(out, e)[|Step(out, e)| - 1].createdAt == e.createdAt
  {
    forall i
      ensures ApartAt(Step(out, e), i)
    {
      assert ApartAt(out, i);
    }
  }

  /** In time order, the summaries of two adjacent runs never merge. */
  lemma {:induction false} SummariesStayApart(es: seq<Entry>)
    requires Ascending(es)
    ensures Apart(Summaries(Runs(es))) && Ascending(Summaries(Runs(es)))
    ensures var out := Summaries(Runs(es)); es != [] ==> out != [] && out[|out| - 1].createdAt == es[|es| - 1].createdAt
  {
    if es != [] {
      var front, e := es[..|es| - 1], es[|es| - 1];
      SummariesStayApart(front);
      SplitLast(es);
      SummariesStep(front, e);
      StepStaysApart(Summaries(Runs(front)), e);
    }
  }

  /** A timeline with no mergeable neighbours is left as it is. */
  lemma {:induction false} NothingToMerge(es: seq<Entry>)
    requires Apart(es)
    ensures Summaries(Runs(es)) == es
  {
    if es != [] {
      var front := es[..|es| - 1];
      forall i
        ensures ApartAt(front, i)
      {
        assert ApartAt(es, i);
      }
      NothingToMerge(front);
      SplitLast(es);
      SummariesStep(front, es[|es| - 1]);
      assert ApartAt(es, |es| - 1);
    }
  }

  /** A pass shortens a timeline in which some neighbours merge. */
  lemma {:induction false} MergingShortens(es: seq<Entry>)
    ensures |Steps(es)| <= |es|
    ensures !Apart(es) ==> |Steps(es)| < |es|
  {
    if es != [] {
      var front := es[..|es| - 1];
      MergingShortens(front);
      if Apart(front) {
        StepsAreSummaries(front);
        NothingToMerge(front);
        if !Apart(es) {
          LastPairMerges(es);
        }
      }
    }
  }

  lemma LastPairMerges(es: seq<Entry>)
    requires es != [] && Apart(es[..|es| - 1]) && !Apart(es)
    ensures |es| > 1 && Mergeable(es[|es| - 2], es[|es| - 1])
  {
    var i :| !ApartAt(es, i);
    assert ApartAt(es[..|es| - 1], i);
  }

  /** The last entries of runs `i - 1` and `i` do not merge. */
  ghost predicate LastsApartAt(runs: seq<Run>, i: int) {
    0 < i < |runs| ==> !Mergeable(runs[i - 1].last, runs[i].last)
  }

  ghost predicate LastsApart(runs: seq<Run>) {
    forall i :: LastsApartAt(runs, i)
  }

  lemma {:induction false} SummariesAt(runs: seq<Run>, i: nat)
    requires i < |runs|
    ensures |Summaries(runs)| == |runs| && Summaries(runs)[i] == Summary(runs[i])
  {
    var n := |runs| - 1;
    if n > 0 {
      SummariesAt(runs[..n], if i < n then i else 0);
    }
  }

  lemma SummariesApart(runs: seq<Run>, i: int)
    ensures ApartAt(Summaries(runs), i) <==> LastsApartAt(runs, i)
  {
    if runs != [] {
      SummariesAt(runs, 0);
      if 0 < i < |runs| {
        SummariesAt(runs, i - 1);
        SummariesAt(runs, i);
      }
    }
  }

  /** A second pass changes nothing exactly when no two adjacent runs end in entries that merge. */
  lemma IdempotentExactlyWhenLastsApart(es: seq<Entry>)
    ensures var out := Summaries(Runs(es)); Summaries(Runs(out)) == out <==> LastsApart(Runs(es))
  {
    var runs := Runs(es);
    var out := Summaries(runs);
    forall i
      ensures ApartAt(out, i) <==> LastsApartAt(runs, i)
    {
      SummariesApart(runs, i);
    }
    assert Apart(out) <==> LastsApart(runs);
    if Apart(out) {
      NothingToMerge(out);
    }
    MergingShortens(out);
    StepsAreSummaries(out);
  }

  /** In time order that is always so: coalescing twice changes nothing more. */
  lemma CoalesceIsIdempotent(es: seq<Entry>)
    requires Ascending(es)
    ensures LastsApart(Runs(es))
    ensures var out := Summaries(Runs(es)); Summaries(Runs(out)) == out
  {
    SummariesStayApart(es);
    forall i
      ensures LastsApartAt(Runs(es), i)
    {
      SummariesApart(Runs(es), i);
      assert ApartAt(Summaries(Runs(es)), i);
    }
    IdempotentExactlyWhenLastsApart(es);
  }

  lemma TwoSteps(a: Entry, b: Entry)
    ensures Steps([a, b]) == Step([a], b)
  {
    AddStep([], a);
    assert [] + [a] == [a];
    AddStep([a], b);
    assert [a] + [b] == [a, b];
  }

  lemma ThreeSteps(a: Entry, b: Entry, c: Entry)
    ensures Steps([a, b, c]) == Step(Step([a], b), c)
  {
    TwoSteps(a, b);
    AddStep([a, b], c);
    assert [a, b] + [c] == [a, b, c];
  }

  lemma SecondPassMerges(a: Entry, b: Entry, c: Entry)
    requires !Mergeable(a, b) && Mergeable(b, c) && Mergeable(a, c)
    ensures |Steps([a, b, c])| == 2 && |Steps(Steps([a, b, c]))| == 1
  {
    var c' := c.(coalescedCount := Some(Weight(b) + 1));
    ThreeSteps(a, b, c);
    assert Step([a], b) == [a, b];
    assert Step([a, b], c) == [a, c'];
    TwoSteps(a, c');
    assert Mergeable(a, c');
  }

  /** Out of time order a second pass can merge again: the last entry of a run may lie
      nearer to the run before it than the run's first entry did. */
  lemma OutOfOrderIsNotIdempotent() returns (es: seq<Entry>)
    ensures var out := Summaries(Runs(es)); Summaries(Runs(out)) != out
  {
    var a := Entry(Activity, "a", "m", "u", 0, Some("x"), None, None, None, None, None, None);
    var b, c := a.(createdAt := 121000), a.(createdAt := 60000);
    es := [a, b, c];
    SecondPassMerges(a, b, c);
    StepsAreSummaries(es);
    StepsAreSummaries(Steps(es));
  }

  // ----- the rule at work ---------------------------------------------------------------------

  /** All entries are the one `action` by the one actor, and carry no counts. */
  ghost predicate OneDoing(es: seq<Entry>, action: string, actorType: string, actorId: string) {
    forall e :: e in es ==>
      e.kind.Activity? && e.action == Some(action) && e.actorType == actorType && e.actorId == actorId
      && e.coalescedCount.None?
  }

  lemma SingleStaysItself(es: seq<Entry>)
    requires |es| == 1
    ensures Summaries(Runs(es)) == es
  {
    forall i
      ensures ApartAt(es, i)
    {
    }
    NothingToMerge(es);
  }

  lemma {:induction false} ChainStep(front: seq<Entry>, e: Entry, count: int)
    requires front != [] && Summaries(Runs(front)) == [front[|front| - 1].(coalescedCount := Some(count))]
    requires Mergeable(front[|front| - 1], e)
    ensures Summaries(Runs(front + [e])) == [e.(coalescedCount := Some(count + 1))]
  {
    var out := Summaries(Runs(front));
    SummariesStep(front, e);
    assert out[..0] == [] && Mergeable(out[0], e);
  }

  lemma PairMerges(a: Entry, b: Entry)
    requires Mergeable(a, b) && a.coalescedCount.None?
    ensures Summaries(Runs([a, b])) == [b.(coalescedCount := Some(2))]
  {
    SingleStaysItself([a]);
    SummariesStep([a], b);
    assert [a][..0] == [] && [a] + [b] == [a, b];
  }

  /** Entries that merge one after the other are shown as the last of them with their number. */
  lemma {:induction false} ChainIsShownAsOne(es: seq<Entry>)
    requires |es| > 1 && Chained(es) && es[0].coalescedCount.None?
    ensures Summaries(Runs(es)) == [es[|es| - 1].(coalescedCount := Some(|es|))]
  {
    var front, e := es[..|es| - 1], es[|es| - 1];
    SplitLast(es);
    assert MergesAt(es, |es| - 1);
    if |front| > 1 {
      forall i
        ensures MergesAt(front, i)
      {
        assert MergesAt(es, i);
      }
      ChainIsShownAsOne(front);
      ChainStep(front, e, |front|);
    } else {
      PairMerges(es[0], e);
      assert es == [es[0], e];
    }
  }

  /** Finished tasks merge across any gap in time: however far apart, they are shown as the last of them
      with their number. */
  lemma FinishedTasksMergeAcrossAnyGap(es: seq<Entry>, action: string, actorType: string, actorId: string)
    requires action == "task_completed" || action == "task_failed"
    requires |es| > 1 && OneDoing(es, action, actorType, actorId)
    ensures Summaries(Runs(es)) == [es[|es| - 1].(coalescedCount := Some(|es|))]
  {
    forall i
      ensures MergesAt(es, i)
    {
      assert 0 < i < |es| ==> es[i] in es && es[i - 1] in es;
    }
    assert es[0] in es;
    ChainIsShownAsOne(es);
  }

  /** At most two minutes, 120000 milliseconds, lie between entry `i` and the one before it. */
  ghost predicate CloseAt(es: seq<Entry>, i: int) {
    0 < i < |es| ==> -120000 <= es[i].createdAt - es[i - 1].createdAt <= 120000
  }

  /** Of any other action but the evaluations, entries merge while each is within two minutes of the one
      before, in either direction. */
  lemma CloseEntriesMerge(es: seq<Entry>, action: string, actorType: string, actorId: string)
    requires action != "squad_leader_evaluated" && |es| > 1 && OneDoing(es, action, actorType, actorId)
    requires forall i :: CloseAt(es, i)
    ensures Summaries(Runs(es)) == [es[|es| - 1].(coalescedCount := Some(|es|))]
  {
    forall i
      ensures MergesAt(es, i)
    {
      assert CloseAt(es, i) && (0 < i < |es| ==> es[i] in es && es[i - 1] in es);
    }
    assert es[0] in es;
    ChainIsShownAsOne(es);
  }

  /** Entries `i - 1` and `i` must not be shown as one: another doing, an evaluation, a comment, or too far
      apart for an action with a time limit. */
  ghost predicate MustStayApartAt(es: seq<Entry>, i: int) {
    0 < i < |es| ==>
      || !SameDoing(es[i - 1], es[i]) || es[i].action == Some("squad_leader_evaluated")
      || (!CloseAt(es, i) && es[i].action != Some("task_completed") && es[i].action != Some("task_failed"))
  }

  /** A timeline in which every two neighbours must stay apart is shown as it is. */
  lemma NeighboursStayApart(es: seq<Entry>)
    requires forall i :: MustStayApartAt(es, i)
    ensures Summaries(Runs(es)) == es
  {
    forall i
      ensures ApartAt(es, i)
    {
      assert MustStayApartAt(es, i);
    }
    NothingToMerge(es);
  }
}
