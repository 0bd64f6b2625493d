/** The session's exception fuse: keep the first three events of a fingerprint, drop the rest. */
module ExceptionFuse {
  import opened Prelude

  const SAMPLE_LIMIT: nat := 3
  const MAX_FINGERPRINTS: nat := 50

  /** A value found in the stored record; only a number counts. */
  datatype Value = Number(n: int) | Other

  /** What session storage holds under the fuse's key. */
  datatype Blob = Absent | Corrupt | Counts(m: map<string, Value>)

  /** What storage lets the fuse do while one event is handled. */
  datatype Access = Access(available: bool, readable: bool, writable: bool)

  /** An event with its fingerprint, if anything in it is stable enough to give one. */
  datatype Event = Event(fingerprint: Option<string>, access: Access)

  function ReadCounts(b: Blob): map<string, Value> {
    if b.Counts? then b.m else map[]
  }

  function Current(counts: map<string, Value>, fp: string): int {
    if fp in counts && counts[fp].Number? then counts[fp].n else 0
  }

  /** Whether the event is dropped, and what storage holds afterwards. */
  function Decide(b: Blob, e: Event): (bool, Blob) {
    if e.fingerprint.None? || !e.access.available || !e.access.readable then (false, b)
    else
      var fp, counts := e.fingerprint.value, ReadCounts(b);
      var current := Current(counts, fp);
      if current >= SAMPLE_LIMIT then (true, b)
      else if current == 0 && |counts| >= MAX_FINGERPRINTS then (false, b)
      else (false, if e.access.writable then Counts(counts[fp := Number(current + 1)]) else b)
  }

  class Fuse {
    var blob: Blob

    method ShouldDropException(e: Event) returns (drop: bool)
      modifies this
      ensures (drop, blob) == Decide(old(blob), e)
    {
      if e.fingerprint.None? { return false; }
      if !e.access.available || !e.access.readable { return false; }
      var counts := ReadCounts(blob);
      var current := Current(counts, e.fingerprint.value);
      if current >= SAMPLE_LIMIT { return true; }
      if current == 0 && |counts| >= MAX_FINGERPRINTS { return false; }
      counts := counts[e.fingerprint.value := Number(current + 1)];
      if e.access.writable {
        blob := Counts(counts);
      }
      return false;
    }
  }

  /** Whatever fails, the event is kept: without a fingerprint, storage or a read nothing happens, a refused
      write leaves the record as it was, and an unusable record or count starts again from one. */
  lemma FailuresKeepTheEvent(b: Blob, e: Event)
    ensures e.fingerprint.None? || !e.access.available || !e.access.readable ==> Decide(b, e) == (false, b)
    ensures !e.access.writable ==> Decide(b, e).1 == b
    ensures e.fingerprint.Some? && e.access == Access(true, true, true) ==>
      var fp := e.fingerprint.value;
      && (!b.Counts? ==> Decide(b, e) == (false, Counts(map[fp := Number(1)])))
      && (b.Counts? && |b.m| < MAX_FINGERPRINTS && fp in b.m && b.m[fp].Other? ==>
            Decide(b, e) == (false, Counts(b.m[fp := Number(1)])))
  {
  }

  // ----- whole sessions ---------------------------------------------------------------------

  /** Storage after a session of events; a new tab starts with none. */
  function After(events: seq<Event>): Blob {
    if |events| == 0 then Absent else Decide(After(events[..|events| - 1]), events[|events| - 1]).1
  }

  /** Whether the last of the events is dropped. */
  function LastDropped(events: seq<Event>): bool
    requires |events| > 0
  {
    Decide(After(events[..|events| - 1]), events[|events| - 1]).0
  }

  /** How many events with this fingerprint have been kept. */
  function Kept(events: seq<Event>, fp: string): nat {
    if |events| == 0 then 0 else
      Kept(events[..|events| - 1], fp)
      + if events[|events| - 1].fingerprint == Some(fp) && !LastDropped(events) then 1 else 0
  }

  /** Event `k` has this fingerprint and is kept. */
  predicate IsKeptAt(events: seq<Event>, fp: string, k: nat) {
    k < |events| && events[k].fingerprint == Some(fp) && !LastDropped(events[..k + 1])
  }

  function KeptAt(events: seq<Event>, fp: string): set<nat> {
    set k: nat | k < |events| && IsKeptAt(events, fp, k)
  }

  lemma KeptEarlier(events: seq<Event>, fp: string, k: nat)
    requires k < |events| - 1
    ensures IsKeptAt(events[..|events| - 1], fp, k) <==> IsKeptAt(events, fp, k)
  {
    assert events[..|events| - 1][..k + 1] == events[..k + 1];
  }

  /** The number kept is the number of positions at which one is. */
  lemma {:induction false} KeptCounts(events: seq<Event>, fp: string)
    ensures Kept(events, fp) == |KeptAt(events, fp)|
  {
    if |events| == 0 {
      assert KeptAt(events, fp) == {};
    } else {
      var n := |events| - 1;
      KeptCounts(events[..n], fp);
      forall k: nat | k < n
        ensures IsKeptAt(events[..n], fp, k) <==> IsKeptAt(events, fp, k)
      {
        KeptEarlier(events, fp, k);
      }
      assert events[..n + 1] == events;
      assert KeptAt(events, fp) == KeptAt(events[..n], fp) + if IsKeptAt(events, fp, n) then {n} else {};
    }
  }

  ghost predicate SmallCounts(counts: map<string, Value>) {
    && |counts| <= MAX_FINGERPRINTS
    && forall fp :: fp in counts ==> counts[fp].Number? && 1 <= counts[fp].n <= SAMPLE_LIMIT
  }

  /** At most fifty fingerprints, each counted between one and three and never above what was kept. */
  ghost predicate Sound(events: seq<Event>) {
    var counts := ReadCounts(After(events));
    SmallCounts(counts) && forall fp :: fp in counts ==> Current(counts, fp) <= Kept(events, fp)
  }

  lemma CountSize(counts: map<string, Value>, fp: string, v: Value)
    ensures |counts[fp := v]| == if fp in counts then |counts| else |counts| + 1
  {
    if fp in counts {
      assert counts[fp := v].Keys == counts.Keys;
    }
  }

  /** A step changes nothing, or counts one more of the kept event's fingerprint. */
  lemma StepCounts(b: Blob, e: Event)
    requires SmallCounts(ReadCounts(b))
    ensures var before, after := ReadCounts(b), ReadCounts(Decide(b, e).1);
      && SmallCounts(after)
      && (after == before || (e.fingerprint.Some? && !Decide(b, e).0
           && after == before[e.fingerprint.value := Number(Current(before, e.fingerprint.value) + 1)]))
  {
    if e.fingerprint.Some? {
      var before, fp := ReadCounts(b), e.fingerprint.value;
      CountSize(before, fp, Number(Current(before, fp) + 1));
    }
  }

  /** Whatever storage refuses along the way. */
  lemma {:induction false} SessionIsSound(events: seq<Event>)
    ensures Sound(events)
  {
    if |events| > 0 {
      var front, last := events[..|events| - 1], events[|events| - 1];
      SessionIsSound(front);
      StepCounts(After(front), last);
      assert forall fp :: Kept(front, fp) <= Kept(events, fp);
    }
  }

  /** An event is dropped only after three events with its fingerprint were kept, even when
      reads or writes fail. */
  lemma DroppedOnlyAfterThree(events: seq<Event>)
    requires |events| > 0 && LastDropped(events)
    ensures events[|events| - 1].fingerprint.Some?
    ensures Kept(events[..|events| - 1], events[|events| - 1].fingerprint.value) >= SAMPLE_LIMIT
  {
    SessionIsSound(events[..|events| - 1]);
  }

  // ----- sessions in which storage works -------------------------------------------------------

  const WORKING := Access(true, true, true)

  function Occurrences(events: seq<Event>, fp: string): nat {
    if |events| == 0 then 0 else
      Occurrences(events[..|events| - 1], fp) + if events[|events| - 1].fingerprint == Some(fp) then 1 else 0
  }

  lemma {:induction false} OccurrencesCount(events: seq<Event>, fp: string)
    ensures Occurrences(events, fp) == |set k: nat | k < |events| && events[k].fingerprint == Some(fp)|
  {
    var at := set k: nat | k < |events| && events[k].fingerprint == Some(fp);
    if |events| == 0 {
      assert at == {};
    } else {
      var n := |events| - 1;
      var before := set k: nat | k < |events[..n]| && events[..n][k].fingerprint == Some(fp);
      OccurrencesCount(events[..n], fp);
      assert at == before + if n in at then {n} else {};
    }
  }

  /** The different fingerprints in the order they first appear. */
  function Fingerprints(events: seq<Event>): seq<string> {
    if |events| == 0 then [] else
      var front, fp := Fingerprints(events[..|events| - 1]), events[|events| - 1].fingerprint;
      if fp.Some? && fp.value !in front then front + [fp.value] else front
  }

  /** Among the first fifty different fingerprints. */
  predicate Tracked(events: seq<Event>, fp: string) {
    var all := Fingerprints(events);
    fp in if |all| <= MAX_FINGERPRINTS then all else all[..MAX_FINGERPRINTS]
  }

  ghost predicate AllWorking(events: seq<Event>) {
    forall e :: e in events ==> e.access == WORKING
  }

  lemma {:induction false} Appeared(events: seq<Event>, fp: string)
    ensures Occurrences(events, fp) > 0 <==> fp in Fingerprints(events)
  {
    if |events| > 0 {
      Appeared(events[..|events| - 1], fp);
    }
  }

  lemma {:induction false} FingerprintsDiffer(events: seq<Event>)
    ensures NoDuplicates(Fingerprints(events))
  {
    if |events| > 0 {
      var front, fp := Fingerprints(events[..|events| - 1]), events[|events| - 1].fingerprint;
      FingerprintsDiffer(events[..|events| - 1]);
      if fp.Some? && fp.value !in front {
        NoDuplicatesConcat(front, [fp.value]);
      }
    }
  }

  /** The record holds the tracked fingerprints, each with its occurrences up to three. */
  ghost predicate ExactCounts(counts: map<string, Value>, events: seq<Event>) {
    && (forall fp :: fp in counts <==> Tracked(events, fp))
    && (forall fp :: fp in counts ==> counts[fp] == Number(Min(Occurrences(events, fp), SAMPLE_LIMIT)))
  }

  /** The stored record of a session in which storage works. */
  ghost predicate Exact(events: seq<Event>) {
    var counts := ReadCounts(After(events));
    |counts| == Min(|Fingerprints(events)|, MAX_FINGERPRINTS) && ExactCounts(counts, events)
  }

  lemma {:induction false} WorkingSessionIsExact(events: seq<Event>)
    requires AllWorking(events)
    ensures Exact(events)
  {
    if |events| > 0 {
      var front, last := events[..|events| - 1], events[|events| - 1];
      SplitLast(events);
      assert last in events && last.access == WORKING;
      WorkingSessionIsExact(front);
      if last.fingerprint.Some? {
        ExactStep(front, last);
      }
    }
  }

  lemma TrackedGrows(front: seq<Event>, last: Event, fp: string)
    requires last.fingerprint.Some?
    ensures Tracked(front + [last], fp) <==>
      || Tracked(front, fp)
      || (fp == last.fingerprint.value && fp !in Fingerprints(front) && |Fingerprints(front)| < MAX_FINGERPRINTS)
  {
    DropLast(front, last);
    var all, next := Fingerprints(front), Fingerprints(front + [last]);
    if |all| >= MAX_FINGERPRINTS {
      assert next[..MAX_FINGERPRINTS] == all[..MAX_FINGERPRINTS];
    }
  }

  lemma OccurrencesGrow(front: seq<Event>, last: Event, fp: string)
    ensures Occurrences(front + [last], fp) == Occurrences(front, fp) + if last.fingerprint == Some(fp) then 1 else 0
  {
    DropLast(front, last);
  }

  /** What the record becomes: unchanged when spent or untracked, and otherwise one more of `fp`. */
  lemma WorkingStep(front: seq<Event>, last: Event, fp: string)
    requires last.fingerprint == Some(fp) && last.access == WORKING
    ensures var before, after := ReadCounts(After(front)), ReadCounts(After(front + [last]));
      var current := Current(before, fp);
      after == if current >= SAMPLE_LIMIT || (current == 0 && |before| >= MAX_FINGERPRINTS) then before
               else before[fp := Number(current + 1)]
  {
    DropLast(front, last);
  }

  lemma KnownStep(front: seq<Event>, last: Event, fp: string, before: map<string, Value>, after: map<string, Value>)
    requires last.fingerprint == Some(fp) && ExactCounts(before, front) && fp in before
    requires var current := Current(before, fp);
      after == if current >= SAMPLE_LIMIT then before else before[fp := Number(current + 1)]
    ensures |after| == |before| && ExactCounts(after, front + [last])
  {
    Appeared(front, fp);
    assert fp in Fingerprints(front);
    CountSize(before, fp, Number(Current(before, fp) + 1));
    forall x
      ensures Tracked(front + [last], x) <==> Tracked(front, x)
      ensures Occurrences(front + [last], x) == Occurrences(front, x) + if x == fp then 1 else 0
    {
      TrackedGrows(front, last, x);
      OccurrencesGrow(front, last, x);
    }
  }

  lemma NewStep(front: seq<Event>, last: Event, fp: string, before: map<string, Value>, after: map<string, Value>)
    requires last.fingerprint == Some(fp) && ExactCounts(before, front) && fp !in before
    requires |before| == Min(|Fingerprints(front)|, MAX_FINGERPRINTS)
    requires after == if |before| >= MAX_FINGERPRINTS then before else before[fp := Number(1)]
    ensures |after| == Min(|Fingerprints(front + [last])|, MAX_FINGERPRINTS) && ExactCounts(after, front + [last])
  {
    Appeared(front, fp);
    CountSize(before, fp, Number(1));
    assert |before| < MAX_FINGERPRINTS ==> fp !in Fingerprints(front);
    DropLast(front, last);
    forall x
      ensures Tracked(front + [last], x) <==> Tracked(front, x) || (x == fp && |before| < MAX_FINGERPRINTS)
      ensures Occurrences(front + [last], x) == Occurrences(front, x) + if x == fp then 1 else 0
    {
      TrackedGrows(front, last, x);
      OccurrencesGrow(front, last, x);
    }
  }

  lemma ExactStep(front: seq<Event>, last: Event)
    requires Exact(front) && last.fingerprint.Some? && last.access == WORKING
    ensures Exact(front + [last])
  {
    var fp := last.fingerprint.value;
    var before, after := ReadCounts(After(front)), ReadCounts(After(front + [last]));
    WorkingStep(front, last, fp);
    if fp in before {
      assert Tracked(front, fp);
      Appeared(front, fp);
      KnownStep(front, last, fp, before, after);
      assert Fingerprints(front + [last]) == Fingerprints(front) by { DropLast(front, last); }
    } else {
      NewStep(front, last, fp, before, after);
    }
  }

  /** When storage works an event is dropped exactly when its fingerprint is among the session's
      first fifty and has occurred three times before. */
  lemma DroppedExactlyFromTheFourth(events: seq<Event>)
    requires |events| > 0 && AllWorking(events)
    ensures var front, fp := events[..|events| - 1], events[|events| - 1].fingerprint;
      LastDropped(events) <==> fp.Some? && Tracked(front, fp.value) && Occurrences(front, fp.value) >= SAMPLE_LIMIT
  {
    assert events[|events| - 1] in events;
    WorkingSessionIsExact(events[..|events| - 1]);
  }
}
