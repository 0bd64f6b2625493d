/** Which workspace is current: the module's variables and its deferred notifications. */
module WorkspaceContext {
  import opened Prelude

  datatype Task = Notify | Rehydrate

  /** A switch that a subscriber asks for while it is being notified. */
  datatype Target = Target(slug: Option<string>, wsId: Option<string>)

  /** The module variables and the microtask queue; besides, for the record, the slug each
      subscriber was told last, the slug when it joined, and who was told since joining. */
  datatype Context = Context(
    slug: Option<string>,
    wsId: Option<string>,
    pendingNotify: bool,
    pendingRehydrate: bool,
    queue: seq<Task>,
    subscribers: seq<nat>,
    heard: map<nat, Option<string>>,
    joinedAt: map<nat, Option<string>>,
    told: set<nat>)

  const INITIAL := Context(None, None, false, false, [], [], map[], map[], {})

  // ----- what each call does ----------------------------------------------------------------

  function Switch(c: Context, slug: Option<string>, wsId: Option<string>): Context {
    if c.slug == slug then c.(wsId := wsId)
    else
      var notify := if c.pendingNotify then c.queue else c.queue + [Notify];
      c.(slug := slug, wsId := wsId, pendingNotify := true, pendingRehydrate := true,
         queue := if c.pendingRehydrate then notify else notify + [Rehydrate])
  }

  /** Tell each of `subs` the slug read at the start; a subscriber may switch on hearing it. */
  function Tell(c: Context, current: Option<string>, subs: seq<nat>, reacts: map<nat, Target>): Context {
    if |subs| == 0 then c else
      var before, fn := Tell(c, current, subs[..|subs| - 1], reacts), subs[|subs| - 1];
      var next := before.(heard := before.heard[fn := current], told := before.told + {fn});
      if fn in reacts then Switch(next, reacts[fn].slug, reacts[fn].wsId) else next
  }

  /** The microtask at the head of the queue, if there is one. */
  function RunTask(c: Context, reacts: map<nat, Target>): Context {
    if |c.queue| == 0 then c
    else if c.queue[0] == Notify then
      Tell(c.(queue := c.queue[1..], pendingNotify := false), c.slug, c.subscribers, reacts)
    else c.(queue := c.queue[1..], pendingRehydrate := false)
  }

  /** Joining tells the subscriber nothing; joining again changes nothing. */
  function Subscribe(c: Context, fn: nat): Context {
    if fn in c.subscribers then c
    else c.(subscribers := c.subscribers + [fn], joinedAt := c.joinedAt[fn := c.slug], told := c.told - {fn})
  }

  datatype Event =
    | SwitchTo(slug: Option<string>, wsId: Option<string>)
    | Microtask(reacts: map<nat, Target>)
    | Join(fn: nat)
    | Leave(fn: nat)

  function Step(c: Context, e: Event): Context {
    match e
    case SwitchTo(slug, wsId) => Switch(c, slug, wsId)
    case Microtask(reacts) => RunTask(c, reacts)
    case Join(fn) => Subscribe(c, fn)
    case Leave(fn) => c.(subscribers := Remove(c.subscribers, fn))
  }

  function Run(c: Context, events: seq<Event>): Context {
    if |events| == 0 then c else Step(Run(c, events[..|events| - 1]), events[|events| - 1])
  }

  // ----- what always holds -------------------------------------------------------------------

  function Count(queue: seq<Task>, t: Task): nat {
    if |queue| == 0 then 0 else Count(queue[1..], t) + if queue[0] == t then 1 else 0
  }

  lemma {:induction false} CountSnoc(queue: seq<Task>, last: Task, t: Task)
    ensures Count(queue + [last], t) == Count(queue, t) + if last == t then 1 else 0
  {
    if |queue| > 0 {
      CountSnoc(queue[1..], last, t);
      assert (queue + [last])[1..] == queue[1..] + [last];
    } else {
      assert queue + [last] == [last];
    }
  }

  lemma {:induction false} CountAll(queue: seq<Task>)
    ensures |queue| == Count(queue, Notify) + Count(queue, Rehydrate)
  {
    if |queue| > 0 {
      CountAll(queue[1..]);
    }
  }

  /** Each kind of microtask is queued once when its flag is up, and otherwise not at all. */
  ghost predicate QueueOk(c: Context) {
    && Count(c.queue, Notify) == (if c.pendingNotify then 1 else 0)
    && Count(c.queue, Rehydrate) == (if c.pendingRehydrate then 1 else 0)
  }

  ghost predicate AllHeard(c: Context, subs: seq<nat>, current: Option<string>) {
    forall fn :: fn in subs ==> fn in c.told && fn in c.heard && c.heard[fn] == current
  }

  /** Told since it joined, the subscriber heard the current slug; not told since, it joined
      under the current slug. */
  ghost predicate UpToDate(c: Context, fn: nat) {
    if fn in c.told then fn in c.heard && c.heard[fn] == c.slug
    else fn in c.joinedAt && c.joinedAt[fn] == c.slug
  }

  /** The queue matches the flags, no subscriber is registered twice, and unless a notification
      is pending every subscriber is up to date. */
  ghost predicate Consistent(c: Context) {
    && QueueOk(c)
    && NoDuplicates(c.subscribers)
    && (!c.pendingNotify ==> forall fn :: fn in c.subscribers ==> UpToDate(c, fn))
  }

  lemma SwitchKeepsQueue(c: Context, slug: Option<string>, wsId: Option<string>)
    requires QueueOk(c)
    ensures QueueOk(Switch(c, slug, wsId))
  {
    var notify := if c.pendingNotify then c.queue else c.queue + [Notify];
    CountSnoc(c.queue, Notify, Notify);
    CountSnoc(c.queue, Notify, Rehydrate);
    CountSnoc(notify, Rehydrate, Notify);
    CountSnoc(notify, Rehydrate, Rehydrate);
  }

  /** While subscribers are told: whoever was told has heard `current`, and if that is no longer
      the current slug another notification is already queued. */
  lemma {:induction false} TellReaches(c: Context, current: Option<string>, subs: seq<nat>, reacts: map<nat, Target>)
    requires QueueOk(c) && c.slug == current
    ensures var d := Tell(c, current, subs, reacts);
      && QueueOk(d) && AllHeard(d, subs, current)
      && d.subscribers == c.subscribers
      && (d.slug == current || d.pendingNotify)
  {
    if |subs| > 0 {
      var front, fn := subs[..|subs| - 1], subs[|subs| - 1];
      TellReaches(c, current, front, reacts);
      SplitLast(subs);
      var before := Tell(c, current, front, reacts);
      var next := before.(heard := before.heard[fn := current], told := before.told + {fn});
      assert QueueOk(next) && AllHeard(next, subs, current);
      if fn in reacts {
        SwitchKeepsQueue(next, reacts[fn].slug, reacts[fn].wsId);
      }
    }
  }

  lemma NotifyKeepsConsistent(c: Context, reacts: map<nat, Target>)
    requires Consistent(c) && |c.queue| > 0 && c.queue[0] == Notify
    ensures Consistent(RunTask(c, reacts))
  {
    TellReaches(c.(queue := c.queue[1..], pendingNotify := false), c.slug, c.subscribers, reacts);
  }

  lemma JoinKeepsConsistent(c: Context, fn: nat)
    requires Consistent(c)
    ensures Consistent(Subscribe(c, fn))
  {
    var next := Subscribe(c, fn);
    if fn !in c.subscribers {
      NoDuplicatesConcat(c.subscribers, [fn]);
    }
    if !next.pendingNotify {
      forall x | x in next.subscribers
        ensures UpToDate(next, x)
      {
        assert x in c.subscribers ==> UpToDate(c, x);
      }
    }
  }

  lemma StepKeepsConsistent(c: Context, e: Event)
    requires Consistent(c)
    ensures Consistent(Step(c, e))
  {
    match e
    case SwitchTo(slug, wsId) =>
      SwitchKeepsQueue(c, slug, wsId);
    case Microtask(reacts) =>
      if |c.queue| > 0 && c.queue[0] == Notify {
        NotifyKeepsConsistent(c, reacts);
      }
    case Join(fn) =>
      JoinKeepsConsistent(c, fn);
    case Leave(fn) =>
      RemoveMembers(c.subscribers, fn);
  }

  /** Over every run of switches, microtasks, subscriptions and departures, even with subscribers
      that switch while being notified. */
  lemma {:induction false} RunIsConsistent(events: seq<Event>)
    ensures Consistent(Run(INITIAL, events))
    ensures |Run(INITIAL, events).queue| <= 2
  {
    if |events| > 0 {
      RunIsConsistent(events[..|events| - 1]);
      StepKeepsConsistent(Run(INITIAL, events[..|events| - 1]), events[|events| - 1]);
    }
    CountAll(Run(INITIAL, events).queue);
  }

  lemma {:induction false} TellQuietly(c: Context, current: Option<string>, subs: seq<nat>)
    ensures var d := Tell(c, current, subs, map[]); d == c.(heard := d.heard, told := d.told)
  {
    if |subs| > 0 {
      TellQuietly(c, current, subs[..|subs| - 1]);
    }
  }

  // ----- what waits, and who is told in which order ---------------------------------------------

  lemma {:induction false} TellQueuesBehind(c: Context, current: Option<string>, subs: seq<nat>,
                                            reacts: map<nat, Target>)
    ensures var d := Tell(c, current, subs, reacts); c.queue <= d.queue && d.subscribers == c.subscribers
  {
    if |subs| > 0 {
      TellQueuesBehind(c, current, subs[..|subs| - 1], reacts);
    }
  }

  /** Microtasks run in the order they were queued: each step takes at most the first and adds behind the
      last. */
  lemma QueueIsFirstInFirstOut(c: Context, e: Event)
    ensures (if e.Microtask? && |c.queue| > 0 then c.queue[1..] else c.queue) <= Step(c, e).queue
  {
    if e.Microtask? && |c.queue| > 0 {
      TellQueuesBehind(c.(queue := c.queue[1..], pendingNotify := false), c.slug, c.subscribers, e.reacts);
    }
  }

  /** The same slug again only updates the id; another slug leaves both kinds of microtask pending, the
      notification ahead when neither was. */
  lemma SwitchQueuesOnlyForAnotherSlug(c: Context, slug: Option<string>, wsId: Option<string>)
    ensures var next := Step(c, SwitchTo(slug, wsId));
      && next.slug == slug && next.wsId == wsId
      && (slug == c.slug ==> next == c.(wsId := wsId))
      && (slug != c.slug ==> next.pendingNotify && next.pendingRehydrate && next.subscribers == c.subscribers)
      && (slug != c.slug && !c.pendingNotify && !c.pendingRehydrate ==> next.queue == c.queue + [Notify, Rehydrate])
  {
    assert c.queue + [Notify] + [Rehydrate] == c.queue + [Notify, Rehydrate];
  }

  /** Subscribers are told in the order they joined: a newcomer comes last, and leaving keeps the order of
      the others. */
  lemma SubscribersStandInJoinOrder(c: Context, fn: nat)
    ensures Step(c, Join(fn)).subscribers == if fn in c.subscribers then c.subscribers else c.subscribers + [fn]
    ensures var next := Step(c, Leave(fn)).subscribers;
      Follows(c.subscribers, next) && forall x :: x in next <==> x in c.subscribers && x != fn
  {
    RemoveFollows(c.subscribers, fn);
    RemoveMembers(c.subscribers, fn);
  }

  // ----- slug and id belong together -------------------------------------------------------------

  /** The switches that the subscribers told make, in the order they are told. */
  function Reactions(subs: seq<nat>, reacts: map<nat, Target>): seq<Target> {
    if |subs| == 0 then [] else
      var front, fn := Reactions(subs[..|subs| - 1], reacts), subs[|subs| - 1];
      if fn in reacts then front + [reacts[fn]] else front
  }

  /** The calls an event makes: its own, or those of the subscribers that it tells. */
  function CallsOf(c: Context, e: Event): seq<Target> {
    match e
    case SwitchTo(slug, wsId) => [Target(slug, wsId)]
    case Microtask(reacts) => if |c.queue| > 0 && c.queue[0] == Notify then Reactions(c.subscribers, reacts) else []
    case Join(_) => []
    case Leave(_) => []
  }

  /** Every call made in a run, in order. */
  function Calls(events: seq<Event>): seq<Target> {
    if |events| == 0 then [] else
      var front := events[..|events| - 1];
      Calls(front) + CallsOf(Run(INITIAL, front), events[|events| - 1])
  }

  /** The pair that was set last; before the first call there is neither slug nor id. */
  function LastOf(calls: seq<Target>): Target {
    if |calls| == 0 then Target(None, None) else calls[|calls| - 1]
  }

  lemma {:induction false} TellEndsWithLastReaction(c: Context, current: Option<string>, subs: seq<nat>,
                                                    reacts: map<nat, Target>)
    ensures var d, calls := Tell(c, current, subs, reacts), Reactions(subs, reacts);
      Target(d.slug, d.wsId) == if |calls| == 0 then Target(c.slug, c.wsId) else LastOf(calls)
  {
    if |subs| > 0 {
      TellEndsWithLastReaction(c, current, subs[..|subs| - 1], reacts);
    }
  }

  lemma StepEndsWithLastCall(c: Context, e: Event)
    ensures var d, calls := Step(c, e), CallsOf(c, e);
      Target(d.slug, d.wsId) == if |calls| == 0 then Target(c.slug, c.wsId) else LastOf(calls)
  {
    if e.Microtask? && |c.queue| > 0 && c.queue[0] == Notify {
      TellEndsWithLastReaction(c.(queue := c.queue[1..], pendingNotify := false), c.slug, c.subscribers, e.reacts);
    }
  }

  lemma LastOfConcat(a: seq<Target>, b: seq<Target>)
    ensures LastOf(a + b) == if |b| == 0 then LastOf(a) else LastOf(b)
  {
  }

  /** Over every run, switches by subscribers included: slug and id are the pair of one and the same
      call, the last one made. */
  lemma {:induction false} SlugAndIdAreOfLastCall(events: seq<Event>)
    ensures var c := Run(INITIAL, events); Target(c.slug, c.wsId) == LastOf(Calls(events))
  {
    if |events| > 0 {
      var front, e := events[..|events| - 1], events[|events| - 1];
      SlugAndIdAreOfLastCall(front);
      StepEndsWithLastCall(Run(INITIAL, front), e);
      LastOfConcat(Calls(front), CallsOf(Run(INITIAL, front), e));
    }
  }

  // ----- who has heard what --------------------------------------------------------------------

  /** No subscription of `fn` ends in `events`. */
  ghost predicate Stays(events: seq<Event>, fn: nat) {
    Leave(fn) !in events
  }

  /** Either a notification is on its way or `fn` was told since it joined. */
  ghost predicate WillHear(c: Context, fn: nat) {
    fn in c.subscribers && (c.pendingNotify || fn in c.told)
  }

  lemma StepKeepsWillHear(c: Context, e: Event, fn: nat)
    requires Consistent(c) && WillHear(c, fn) && e != Leave(fn)
    ensures WillHear(Step(c, e), fn)
  {
    match e
    case SwitchTo(slug, wsId) =>
    case Microtask(reacts) =>
      if |c.queue| > 0 && c.queue[0] == Notify {
        TellReaches(c.(queue := c.queue[1..], pendingNotify := false), c.slug, c.subscribers, reacts);
      }
    case Join(other) =>
    case Leave(other) =>
      RemoveMembers(c.subscribers, other);
  }

  /** A step that changes the slug leaves a notification pending. */
  lemma ChangeIsAnnounced(c: Context, e: Event)
    requires Consistent(c) && Step(c, e).slug != c.slug
    ensures Step(c, e).pendingNotify && Step(c, e).subscribers == c.subscribers
  {
    if e.Microtask? && |c.queue| > 0 && c.queue[0] == Notify {
      TellReaches(c.(queue := c.queue[1..], pendingNotify := false), c.slug, c.subscribers, e.reacts);
    }
  }

  lemma {:induction false} WillHearLasts(c: Context, events: seq<Event>, fn: nat)
    requires Consistent(c) && WillHear(c, fn) && Stays(events, fn)
    ensures Consistent(Run(c, events)) && WillHear(Run(c, events), fn)
  {
    if |events| > 0 {
      var front, last := events[..|events| - 1], events[|events| - 1];
      SplitLast(events);
      WillHearLasts(c, front, fn);
      assert last in events;
      StepKeepsConsistent(Run(c, front), last);
      StepKeepsWillHear(Run(c, front), last, fn);
    }
  }

  /** A subscriber from before a step that changed the slug, that has stayed since: once no
      notification is pending, the last slug it was told is the current one. */
  lemma StayingSubscribersHear(before: seq<Event>, e: Event, after: seq<Event>, fn: nat)
    requires var c := Run(INITIAL, before); fn in c.subscribers && Step(c, e).slug != c.slug
    requires Stays(after, fn)
    ensures var d := Run(Step(Run(INITIAL, before), e), after);
      !d.pendingNotify ==> fn in d.subscribers && fn in d.told && fn in d.heard && d.heard[fn] == d.slug
  {
    var c := Run(INITIAL, before);
    RunIsConsistent(before);
    ChangeIsAnnounced(c, e);
    StepKeepsConsistent(c, e);
    WillHearLasts(Step(c, e), after, fn);
  }

  lemma RunSnoc(events: seq<Event>, e: Event)
    ensures Run(INITIAL, events + [e]) == Step(Run(INITIAL, events), e)
  {
    assert (events + [e])[..|events|] == events;
  }

  /** Joins, hears `a`, leaves, and comes back after a switch to `b`. */
  function Rejoining(a: string, b: string, fn: nat): seq<Event> {
    [Join(fn), SwitchTo(Some(a), None), Microtask(map[]), Leave(fn)]
    + [SwitchTo(Some(b), None)] + [Microtask(map[])] + [Microtask(map[])] + [Join(fn)]
  }

  lemma HearsAndLeaves(a: string, fn: nat)
    ensures Run(INITIAL, [Join(fn), SwitchTo(Some(a), None), Microtask(map[]), Leave(fn)])
      == INITIAL.(slug := Some(a), pendingRehydrate := true, queue := [Rehydrate],
                  heard := map[fn := Some(a)], joinedAt := map[fn := None], told := {fn})
  {
    RunSnoc([], Join(fn));
    RunSnoc([Join(fn)], SwitchTo(Some(a), None));
    RunSnoc([Join(fn), SwitchTo(Some(a), None)], Microtask(map[]));
    RunSnoc([Join(fn), SwitchTo(Some(a), None), Microtask(map[])], Leave(fn));
    assert [] + [Join(fn)] == [Join(fn)];
    assert [Join(fn)] + [SwitchTo(Some(a), None)] == [Join(fn), SwitchTo(Some(a), None)];
    assert [Join(fn), SwitchTo(Some(a), None)] + [Microtask(map[])]
      == [Join(fn), SwitchTo(Some(a), None), Microtask(map[])];
    assert [Join(fn), SwitchTo(Some(a), None), Microtask(map[])] + [Leave(fn)]
      == [Join(fn), SwitchTo(Some(a), None), Microtask(map[]), Leave(fn)];
    var joined := INITIAL.(subscribers := [fn], joinedAt := map[fn := None]);
    assert Subscribe(INITIAL, fn) == joined;
    var c := Switch(joined, Some(a), None);
    assert c.queue == [Notify, Rehydrate];
    TellOne(c.(queue := c.queue[1..], pendingNotify := false), Some(a), fn);
    assert Remove([fn], fn) == [];
  }

  lemma TellOne(c: Context, current: Option<string>, fn: nat)
    ensures Tell(c, current, [fn], map[]) == c.(heard := c.heard[fn := current], told := c.told + {fn})
  {
    assert [fn][..0] == [] && Tell(c, current, [], map[]) == c;
  }

  /** A subscriber that comes back is told nothing about what it missed: though no notification is
      pending, what it was told last is not the current slug. */
  lemma RejoiningHearsNothing(a: string, b: string, fn: nat)
    requires a != b
    ensures var c := Run(INITIAL, Rejoining(a, b, fn));
      fn in c.subscribers && c.slug == Some(b) && !c.pendingNotify && fn in c.heard && c.heard[fn] == Some(a)
  {
    var away := [Join(fn), SwitchTo(Some(a), None), Microtask(map[]), Leave(fn)];
    HearsAndLeaves(a, fn);
    RunSnoc(away, SwitchTo(Some(b), None));
    RunSnoc(away + [SwitchTo(Some(b), None)], Microtask(map[]));
    RunSnoc(away + [SwitchTo(Some(b), None)] + [Microtask(map[])], Microtask(map[]));
    RunSnoc(away + [SwitchTo(Some(b), None)] + [Microtask(map[])] + [Microtask(map[])], Join(fn));
  }

  /** From any reachable state two quiet microtasks empty the queue, and then everybody is up to date. */
  lemma TwoMicrotasksSettle(events: seq<Event>)
    ensures var c := Run(INITIAL, events);
      var d := RunTask(RunTask(c, map[]), map[]);
      d.slug == c.slug && d.queue == [] && !d.pendingNotify && !d.pendingRehydrate
      && forall fn :: fn in d.subscribers ==> UpToDate(d, fn)
  {
    RunIsConsistent(events);
    Settle(Run(INITIAL, events));
  }

  lemma QuietTask(c: Context)
    requires Consistent(c) && |c.queue| > 0
    ensures var d := RunTask(c, map[]); Consistent(d) && d.queue == c.queue[1..] && d.slug == c.slug
  {
    StepKeepsConsistent(c, Microtask(map[]));
    TellQuietly(c.(queue := c.queue[1..], pendingNotify := false), c.slug, c.subscribers);
  }

  lemma Settle(c: Context)
    requires Consistent(c)
    ensures var d := RunTask(RunTask(c, map[]), map[]);
      d.slug == c.slug && d.queue == [] && Consistent(d) && !d.pendingNotify && !d.pendingRehydrate
  {
    CountAll(c.queue);
    if |c.queue| > 0 {
      QuietTask(c);
      if |c.queue| > 1 {
        QuietTask(RunTask(c, map[]));
      }
    }
  }

  // ----- the module ---------------------------------------------------------------------------

  class Workspace {
    var currentSlug: Option<string>
    var currentWsId: Option<string>
    var pendingNotify: bool
    var pendingRehydrate: bool
    var queue: seq<Task>
    var subscribers: seq<nat>
    ghost var heard: map<nat, Option<string>>
    ghost var joinedAt: map<nat, Option<string>>
    ghost var told: set<nat>

    constructor ()
      ensures Model() == INITIAL
    {
      currentSlug, currentWsId := None, None;
      pendingNotify, pendingRehydrate := false, false;
      queue, subscribers := [], [];
      heard, joinedAt, told := map[], map[], {};
    }

    ghost function Model(): Context
      reads this
    {
      Context(currentSlug, currentWsId, pendingNotify, pendingRehydrate, queue, subscribers, heard, joinedAt, told)
    }

    method SetCurrentWorkspace(slug: Option<string>, wsId: Option<string>)
      modifies this
      ensures Model() == Step(old(Model()), SwitchTo(slug, wsId))
    {
      if currentSlug == slug {
        currentWsId := wsId;
        return;
      }
      currentSlug := slug;
      currentWsId := wsId;
      if !pendingNotify {
        pendingNotify := true;
        queue := queue + [Notify];
      }
      if !pendingRehydrate {
        pendingRehydrate := true;
        queue := queue + [Rehydrate];
      }
    }

    /** Runs the next microtask; `reacts` are the switches its callbacks make. */
    method RunMicrotask(reacts: map<nat, Target>) returns (task: Option<Task>)
      modifies this
      ensures Model() == Step(old(Model()), Microtask(reacts))
      ensures task == if |old(queue)| == 0 then None else Some(old(queue)[0])
    {
      if |queue| == 0 { return None; }
      task := Some(queue[0]);
      queue := queue[1..];
      if task.value == Rehydrate {
        pendingRehydrate := false;
        return;
      }
      pendingNotify := false;
      var current := currentSlug;
      ghost var start := Model();
      for i := 0 to |subscribers|
        invariant Model() == Tell(start, current, start.subscribers[..i], reacts)
        invariant subscribers == start.subscribers
      {
        var fn := subscribers[i];
        assert start.subscribers[..i + 1][..i] == start.subscribers[..i];
        heard, told := heard[fn := current], told + {fn};
        if fn in reacts {
          SetCurrentWorkspace(reacts[fn].slug, reacts[fn].wsId);
        }
      }
      assert subscribers[..|subscribers|] == subscribers;
    }

    method SubscribeToCurrentSlug(fn: nat)
      modifies this
      ensures Model() == Step(old(Model()), Join(fn))
    {
      if fn !in subscribers {
        subscribers := subscribers + [fn];
        joinedAt, told := joinedAt[fn := currentSlug], told - {fn};
      }
    }

    method Unsubscribe(fn: nat)
      modifies this
      ensures Model() == Step(old(Model()), Leave(fn))
    {
      subscribers := Remove(subscribers, fn);
    }
  }
}
