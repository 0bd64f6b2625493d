/** The chat store's drafts: a copy in memory of what storage holds for the current workspace. */
module ChatDrafts {
  import opened Prelude
  import opened WorkspaceContext

  /** Per session: a text, or a list of attachments. */
  type Drafts<T> = map<string, seq<T>>

  datatype Attachment = Attachment(id: string, filename: string)

  /** What follows the record's own base in its storage key: the current workspace, or nothing. */
  function WsKey(slug: Option<string>): string {
    if Truthy(slug) then [':'] + slug.value else ""
  }

  /** Every workspace has a key of its own; without a slug, or with an empty one, there is no suffix. */
  lemma KeysAreApart(s: Option<string>, t: Option<string>)
    ensures WsKey(s) == WsKey(t) <==> s == t || (!Truthy(s) && !Truthy(t))
    ensures WsKey(None) == WsKey(Some("")) == "" && (Truthy(s) ==> WsKey(s) == ":" + s.value)
  {
    assert Truthy(s) ==> WsKey(s)[1..] == s.value && WsKey(s)[0] == ':';
    assert Truthy(t) ==> WsKey(t)[1..] == t.value && WsKey(t)[0] == ':';
  }

  function Prune<T(==)>(m: Drafts<T>): Drafts<T> {
    map k | k in m && m[k] != [] :: m[k]
  }

  function Get<T>(m: Drafts<T>, session: string): seq<T> {
    if session in m then m[session] else []
  }

  function Read<T>(blobs: map<string, Drafts<T>>, key: string): Drafts<T> {
    if key in blobs then blobs[key] else map[]
  }

  /** Empty entries are not stored, and neither is an empty record. */
  function Write<T(==)>(blobs: map<string, Drafts<T>>, key: string, m: Drafts<T>): map<string, Drafts<T>> {
    if Prune(m) == map[] then blobs - {key} else blobs[key := Prune(m)]
  }

  /** The store in memory, the stored records by key, and the workspace module it follows. */
  datatype Chat = Chat(
    ctx: Context,
    texts: Drafts<char>,
    files: Drafts<Attachment>,
    textBlobs: map<string, Drafts<char>>,
    fileBlobs: map<string, Drafts<Attachment>>)

  // ----- what each call does -----------------------------------------------------------------

  function Reload(c: Chat): Chat {
    var key := WsKey(c.ctx.slug);
    c.(texts := Read(c.textBlobs, key), files := Prune(Read(c.fileBlobs, key)))
  }

  function Create(ctx: Context, textBlobs: map<string, Drafts<char>>,
                  fileBlobs: map<string, Drafts<Attachment>>): Chat {
    Reload(Chat(ctx, map[], map[], textBlobs, fileBlobs))
  }

  function WithTexts(c: Chat, texts: Drafts<char>): Chat {
    c.(texts := texts, textBlobs := Write(c.textBlobs, WsKey(c.ctx.slug), texts))
  }

  function WithFiles(c: Chat, files: Drafts<Attachment>): Chat {
    c.(files := files, fileBlobs := Write(c.fileBlobs, WsKey(c.ctx.slug), files))
  }

  predicate HasId(files: seq<Attachment>, id: string) {
    exists f :: f in files && f.id == id
  }

  /** Replace the attachment with the same id, or append. */
  function Upsert(files: seq<Attachment>, f: Attachment): seq<Attachment> {
    if HasId(files, f.id)
    then seq(|files|, i requires 0 <= i < |files| => if files[i].id == f.id then f else files[i])
    else files + [f]
  }

  ghost predicate DistinctFiles(files: seq<Attachment>) {
    forall i, j :: 0 <= i < j < |files| ==> files[i].id != files[j].id
  }

  /** An attachment is held once under its id: in the place of the one it replaces, or last. The others stay
      as they were. */
  lemma UpsertKeepsOnePerId(files: seq<Attachment>, f: Attachment)
    requires DistinctFiles(files)
    ensures DistinctFiles(Upsert(files, f))
    ensures forall g :: g in Upsert(files, f) <==> g == f || (g in files && g.id != f.id)
    ensures forall k :: 0 <= k < |files| && files[k].id == f.id ==> Upsert(files, f) == files[k := f]
    ensures (forall g :: g in files ==> g.id != f.id) ==> Upsert(files, f) == files + [f]
  {
    var next := Upsert(files, f);
    if HasId(files, f.id) {
      var was :| was in files && was.id == f.id;
      var k :| 0 <= k < |files| && files[k] == was;
      assert next[k] == f;
    }
    forall g
      ensures g in next <==> g == f || (g in files && g.id != f.id)
    {
      if g in files && g.id != f.id {
        var k :| 0 <= k < |files| && files[k] == g;
        assert next[k] == g;
      }
      assert next == files + [f] ==> next[|files|] == f;
    }
  }

  datatype ChatEvent =
    | Ambient(e: Event)
    | SetDraft(session: string, text: string)
    | SetFiles(session: string, files: seq<Attachment>)
    | AddFile(session: string, file: Attachment)
    | Clear(session: string)

  function ChatStep(c: Chat, e: ChatEvent): Chat {
    match e
    case Ambient(ev) =>
      var next := c.(ctx := Step(c.ctx, ev));
      if ev.Microtask? && |c.ctx.queue| > 0 && c.ctx.queue[0] == Rehydrate then Reload(next) else next
    case SetDraft(session, text) => WithTexts(c, c.texts[session := text])
    case SetFiles(session, files) =>
      WithFiles(c, if files != [] then c.files[session := files] else c.files - {session})
    case AddFile(session, file) =>
      if file.id == "" then c else WithFiles(c, c.files[session := Upsert(Get(c.files, session), file)])
    case Clear(session) =>
      if session !in c.texts && session !in c.files then c
      else WithFiles(WithTexts(c, c.texts - {session}), c.files - {session})
  }

  function ChatRun(c: Chat, events: seq<ChatEvent>): Chat {
    if |events| == 0 then c else ChatStep(ChatRun(c, events[..|events| - 1]), events[|events| - 1])
  }

  // ----- memory agrees with storage -----------------------------------------------------------

  /** What storage holds for a workspace, empty entries apart. */
  function Content<T(==)>(blobs: map<string, Drafts<T>>, key: string): Drafts<T> {
    Prune(Read(blobs, key))
  }

  ghost predicate Agrees(c: Chat) {
    var key := WsKey(c.ctx.slug);
    Prune(c.texts) == Content(c.textBlobs, key) && Prune(c.files) == Content(c.fileBlobs, key)
  }

  lemma PruneTwice<T>(m: Drafts<T>)
    ensures Prune(Prune(m)) == Prune(m)
  {
  }

  lemma WriteReads<T>(blobs: map<string, Drafts<T>>, key: string, m: Drafts<T>)
    ensures Content(Write(blobs, key, m), key) == Prune(m)
    ensures forall k :: k != key ==> Content(Write(blobs, key, m), k) == Content(blobs, k)
  {
    PruneTwice(m);
  }

  /** Only entries that are not empty are stored, and a record only while it has one; no other record is touched. */
  lemma OnlyFilledEntriesAreStored<T>(blobs: map<string, Drafts<T>>, key: string, m: Drafts<T>)
    ensures var next := Write(blobs, key, m);
      && (key in next <==> exists s :: s in m && m[s] != [])
      && (key in next ==> forall s :: s in next[key] <==> s in m && m[s] != [])
      && (key in next ==> forall s :: s in next[key] ==> next[key][s] == m[s])
      && next - {key} == blobs - {key}
  {
    if s :| s in m && m[s] != [] {
      assert s in Prune(m);
    }
  }

  /** What each draft event makes of the drafts in memory, whether or not a rehydrate is pending. */
  lemma DraftEventsEditMemory(c: Chat, session: string, text: string, s: string)
    ensures var next := ChatStep(c, SetDraft(session, text));
      && next.files == c.files && session in next.texts
      && Get(next.texts, s) == if s == session then text else Get(c.texts, s)
    ensures var next := ChatStep(c, Clear(session));
      && session !in next.texts && session !in next.files
      && (s != session ==> Get(next.texts, s) == Get(c.texts, s) && Get(next.files, s) == Get(c.files, s))
  {
  }

  lemma FileEventsEditMemory(c: Chat, session: string, files: seq<Attachment>, file: Attachment, s: string)
    ensures var next := ChatStep(c, SetFiles(session, files));
      && next.texts == c.texts && (session in next.files <==> files != [])
      && Get(next.files, s) == if s == session then files else Get(c.files, s)
    ensures var next := ChatStep(c, AddFile(session, file));
      next.texts == c.texts && Get(next.files, s) ==
        if s == session && file.id != "" then Upsert(Get(c.files, s), file) else Get(c.files, s)
  {
  }

  lemma {:induction false} TellSwitchesOrNot(c: Context, current: Option<string>, subs: seq<nat>,
                                             reacts: map<nat, Target>)
    ensures var d := Tell(c, current, subs, reacts); d.pendingRehydrate || (!c.pendingRehydrate && d.slug == c.slug)
  {
    if |subs| > 0 {
      TellSwitchesOrNot(c, current, subs[..|subs| - 1], reacts);
    }
  }

  /** Whatever happens around it, either the workspace is the one last loaded or a rehydrate is pending. */
  lemma StepSwitchesOrNot(c: Context, e: Event)
    requires !(e.Microtask? && |c.queue| > 0 && c.queue[0] == Rehydrate)
    ensures Step(c, e).pendingRehydrate || (!c.pendingRehydrate && Step(c, e).slug == c.slug)
  {
    if e.Microtask? && |c.queue| > 0 {
      TellSwitchesOrNot(c.(queue := c.queue[1..], pendingNotify := false), c.slug, c.subscribers, e.reacts);
    }
  }

  lemma ReloadAgrees(c: Chat)
    ensures Agrees(Reload(c))
  {
    PruneTwice(Read(c.fileBlobs, WsKey(c.ctx.slug)));
  }

  lemma WritesAgree(c: Chat, texts: Drafts<char>, files: Drafts<Attachment>)
    requires c.ctx.pendingRehydrate || Agrees(c)
    ensures c.ctx.pendingRehydrate || (Agrees(WithTexts(c, texts)) && Agrees(WithFiles(c, files)))
    ensures Agrees(WithFiles(WithTexts(c, texts), files))
  {
    WriteReads(c.textBlobs, WsKey(c.ctx.slug), texts);
    WriteReads(c.fileBlobs, WsKey(c.ctx.slug), files);
  }

  lemma StepAgrees(c: Chat, e: ChatEvent)
    requires c.ctx.pendingRehydrate || Agrees(c)
    ensures ChatStep(c, e).ctx.pendingRehydrate || Agrees(ChatStep(c, e))
  {
    match e
    case Ambient(ev) =>
      var next := c.(ctx := Step(c.ctx, ev));
      if ev.Microtask? && |c.ctx.queue| > 0 && c.ctx.queue[0] == Rehydrate {
        ReloadAgrees(next);
      } else {
        StepSwitchesOrNot(c.ctx, ev);
      }
    case SetDraft(session, text) =>
      WritesAgree(c, c.texts[session := text], c.files);
    case SetFiles(session, files) =>
      WritesAgree(c, c.texts, if files != [] then c.files[session := files] else c.files - {session});
    case AddFile(session, file) =>
      WritesAgree(c, c.texts, c.files[session := Upsert(Get(c.files, session), file)]);
    case Clear(session) =>
      WritesAgree(c, c.texts - {session}, c.files - {session});
  }

  /** Over every run of switches, microtasks, writes and clears: whenever no rehydrate is pending
      the drafts in memory are what storage holds for the current workspace. */
  lemma {:induction false} MemoryAgreesWithStorage(ctx: Context, textBlobs: map<string, Drafts<char>>,
                                                   fileBlobs: map<string, Drafts<Attachment>>, events: seq<ChatEvent>)
    ensures var c := ChatRun(Create(ctx, textBlobs, fileBlobs), events); c.ctx.pendingRehydrate || Agrees(c)
  {
    var start := Create(ctx, textBlobs, fileBlobs);
    if |events| == 0 {
      ReloadAgrees(Chat(ctx, map[], map[], textBlobs, fileBlobs));
    } else {
      MemoryAgreesWithStorage(ctx, textBlobs, fileBlobs, events[..|events| - 1]);
      StepAgrees(ChatRun(start, events[..|events| - 1]), events[|events| - 1]);
    }
  }

  // ----- every workspace keeps its own drafts ---------------------------------------------------

  function PutEntry<T(==)>(m: Drafts<T>, session: string, value: seq<T>): Drafts<T> {
    if value == [] then m - {session} else m[session := value]
  }

  /** Outside `session` memory and storage hold the same. */
  ghost predicate AgreeOff<T>(mem: Drafts<T>, content: Drafts<T>, session: string) {
    forall s :: s != session ==> Get(mem, s) == Get(content, s)
  }

  lemma SameByGet<T>(a: Drafts<T>, b: Drafts<T>)
    requires forall s :: Get(a, s) == Get(b, s)
    ensures Prune(a) == Prune(b)
  {
    forall s
      ensures s in Prune(a) <==> s in Prune(b)
      ensures s in Prune(a) ==> Prune(a)[s] == Prune(b)[s]
    {
      assert Get(a, s) == Get(b, s);
    }
  }

  lemma PruneGets<T>(m: Drafts<T>)
    ensures forall s :: Get(Prune(m), s) == Get(m, s)
  {
  }

  /** Writing one entry of the in-memory record changes one entry of the stored one exactly when
      the two agree everywhere else. */
  lemma WriteIsLocalExactlyWhenAgreeing<T>(blobs: map<string, Drafts<T>>, key: string, mem: Drafts<T>,
                                           session: string, value: seq<T>)
    ensures Content(Write(blobs, key, mem[session := value]), key) == PutEntry(Content(blobs, key), session, value)
      <==> AgreeOff(mem, Content(blobs, key), session)
  {
    var next := mem[session := value];
    var put := PutEntry(Content(blobs, key), session, value);
    WriteReads(blobs, key, next);
    PruneGets(next);
    assert forall s :: Get(next, s) == if s == session then value else Get(mem, s);
    assert forall s :: Get(put, s) == if s == session then value else Get(Content(blobs, key), s);
    assert put == Prune(put);
    if AgreeOff(mem, Content(blobs, key), session) {
      SameByGet(next, put);
    }
    if Prune(next) == put {
      forall s | s != session
        ensures Get(mem, s) == Get(Content(blobs, key), s)
      {
        assert Get(Prune(next), s) == Get(put, s);
      }
    }
  }

  /** One plain table of drafts for each workspace. */
  datatype Tables = Tables(texts: map<string, Drafts<char>>, files: map<string, Drafts<Attachment>>)

  function Table<T>(tables: map<string, Drafts<T>>, key: string): Drafts<T> {
    if key in tables then tables[key] else map[]
  }

  function Edit<T(==)>(tables: map<string, Drafts<T>>, key: string, session: string,
                       value: seq<T>): map<string, Drafts<T>> {
    tables[key := PutEntry(Table(tables, key), session, value)]
  }

  /** A draft event edits one entry in the table of the workspace that is current. */
  function TableStep(t: Tables, key: string, e: ChatEvent): Tables {
    match e
    case Ambient(_) => t
    case SetDraft(session, text) => t.(texts := Edit(t.texts, key, session, text))
    case SetFiles(session, files) => t.(files := Edit(t.files, key, session, files))
    case AddFile(session, file) =>
      if file.id == "" then t
      else t.(files := Edit(t.files, key, session, Upsert(Get(Table(t.files, key), session), file)))
    case Clear(session) => Tables(Edit(t.texts, key, session, []), Edit(t.files, key, session, []))
  }

  function TableRun(c: Chat, t: Tables, events: seq<ChatEvent>): Tables {
    if |events| == 0 then t else
      var front := events[..|events| - 1];
      TableStep(TableRun(c, t, front), WsKey(ChatRun(c, front).ctx.slug), events[|events| - 1])
  }

  /** No draft is written while a rehydrate is pending. */
  predicate NoPendingWrites(c: Chat, events: seq<ChatEvent>) {
    |events| == 0 || (
      var front, last := events[..|events| - 1], events[|events| - 1];
      NoPendingWrites(c, front) && (last.Ambient? || !ChatRun(c, front).ctx.pendingRehydrate))
  }

  ghost predicate Holds<T>(blobs: map<string, Drafts<T>>, tables: map<string, Drafts<T>>) {
    forall key :: Content(blobs, key) == Table(tables, key)
  }

  lemma WriteEdits<T>(blobs: map<string, Drafts<T>>, tables: map<string, Drafts<T>>, key: string, mem: Drafts<T>,
                      session: string, next: Drafts<T>)
    requires Holds(blobs, tables) && Prune(mem) == Content(blobs, key)
    requires forall s :: s != session ==> Get(next, s) == Get(mem, s)
    ensures Holds(Write(blobs, key, next), Edit(tables, key, session, Get(next, session)))
  {
    var put := PutEntry(Table(tables, key), session, Get(next, session));
    WriteReads(blobs, key, next);
    PruneGets(mem);
    assert Content(blobs, key) == Table(tables, key);
    assert put == Prune(put) by { PruneTwice(Read(blobs, key)); }
    forall s
      ensures Get(next, s) == Get(put, s)
    {
      assert Get(Prune(mem), s) == Get(mem, s);
    }
    SameByGet(next, put);
  }

  ghost predicate ChatHolds(c: Chat, t: Tables) {
    Holds(c.textBlobs, t.texts) && Holds(c.fileBlobs, t.files)
  }

  lemma MemoryGets<T>(mem: Drafts<T>, blobs: map<string, Drafts<T>>, tables: map<string, Drafts<T>>, key: string,
                      session: string)
    requires Holds(blobs, tables) && Prune(mem) == Content(blobs, key)
    ensures Get(Table(tables, key), session) == Get(mem, session)
  {
    assert Content(blobs, key) == Table(tables, key);
    PruneGets(mem);
  }

  lemma WriteStepHolds(c: Chat, t: Tables, e: ChatEvent)
    requires ChatHolds(c, t) && Agrees(c) && !e.Ambient?
    ensures ChatHolds(ChatStep(c, e), TableStep(t, WsKey(c.ctx.slug), e))
  {
    var key := WsKey(c.ctx.slug);
    match e
    case SetDraft(session, text) =>
      WriteEdits(c.textBlobs, t.texts, key, c.texts, session, c.texts[session := text]);
    case SetFiles(session, files) =>
      WriteEdits(c.fileBlobs, t.files, key, c.files, session,
                 if files != [] then c.files[session := files] else c.files - {session});
    case AddFile(session, file) =>
      MemoryGets(c.files, c.fileBlobs, t.files, key, session);
      WriteEdits(c.fileBlobs, t.files, key, c.files, session, c.files[session := Upsert(Get(c.files, session), file)]);
    case Clear(session) =>
      ClearHolds(c, t, session);
  }

  lemma ClearHolds(c: Chat, t: Tables, session: string)
    requires ChatHolds(c, t) && Agrees(c)
    ensures ChatHolds(ChatStep(c, Clear(session)), TableStep(t, WsKey(c.ctx.slug), Clear(session)))
  {
    var key := WsKey(c.ctx.slug);
    if session !in c.texts && session !in c.files {
      MemoryGets(c.texts, c.textBlobs, t.texts, key, session);
      MemoryGets(c.files, c.fileBlobs, t.files, key, session);
      EditAway(c.textBlobs, t.texts, key, session);
      EditAway(c.fileBlobs, t.files, key, session);
    } else {
      WriteEdits(c.textBlobs, t.texts, key, c.texts, session, c.texts - {session});
      WriteEdits(c.fileBlobs, t.files, key, c.files, session, c.files - {session});
    }
  }

  lemma EditAway<T>(blobs: map<string, Drafts<T>>, tables: map<string, Drafts<T>>, key: string, session: string)
    requires Holds(blobs, tables) && Get(Table(tables, key), session) == []
    ensures Holds(blobs, Edit(tables, key, session, []))
  {
    assert Content(blobs, key) == Table(tables, key);
    assert session !in Table(tables, key);
    assert Table(tables, key) - {session} == Table(tables, key);
  }

  /** Over every run without a write while a rehydrate is pending, storage is a plain table per
      workspace in which each draft event edits one entry of the current one. */
  lemma {:induction false} WorkspacesKeepTheirDrafts(c: Chat, t: Tables, events: seq<ChatEvent>)
    requires ChatHolds(c, t) && (c.ctx.pendingRehydrate || Agrees(c)) && NoPendingWrites(c, events)
    ensures var d := ChatRun(c, events);
      ChatHolds(d, TableRun(c, t, events)) && (d.ctx.pendingRehydrate || Agrees(d))
  {
    if |events| > 0 {
      var front, last := events[..|events| - 1], events[|events| - 1];
      WorkspacesKeepTheirDrafts(c, t, front);
      StepAgrees(ChatRun(c, front), last);
      if !last.Ambient? {
        WriteStepHolds(ChatRun(c, front), TableRun(c, t, front), last);
      }
    }
  }

  /** After switching to `slug`, a draft for `session` written before the rehydrate files
      `other` in that workspace too, which had no such draft. */
  ghost predicate Leaks(c: Chat, slug: string, session: string, other: string) {
    var d := ChatRun(c, [Ambient(SwitchTo(Some(slug), None)), SetDraft(session, "y")]);
    && Agrees(c) && other != session
    && other !in Content(c.textBlobs, WsKey(Some(slug)))
    && other in Content(d.textBlobs, WsKey(Some(slug)))
  }

  lemma ChatRunSnoc(c: Chat, events: seq<ChatEvent>, e: ChatEvent)
    ensures ChatRun(c, events + [e]) == ChatStep(ChatRun(c, events), e)
  {
    assert (events + [e])[..|events|] == events;
  }

  /** Open workspace `a`, let the microtasks run, and write a draft. */
  function DraftInA(): seq<ChatEvent> {
    [Ambient(SwitchTo(Some("a"), None)), Ambient(Microtask(map[])), Ambient(Microtask(map[]))] + [SetDraft("s", "x")]
  }

  lemma OpensA()
    ensures ChatRun(Create(INITIAL, map[], map[]),
                    [Ambient(SwitchTo(Some("a"), None)), Ambient(Microtask(map[])), Ambient(Microtask(map[]))])
      == Chat(INITIAL.(slug := Some("a")), map[], map[], map[], map[])
  {
    var start := Create(INITIAL, map[], map[]);
    var e1, e2 := Ambient(SwitchTo(Some("a"), None)), Ambient(Microtask(map[]));
    ChatRunSnoc(start, [], e1);
    ChatRunSnoc(start, [e1], e2);
    ChatRunSnoc(start, [e1, e2], e2);
    assert [] + [e1] == [e1] && [e1] + [e2] == [e1, e2] && [e1, e2] + [e2] == [e1, e2, e2];
    assert start == Chat(INITIAL, map[], map[], map[], map[]);
    var c := Switch(INITIAL, Some("a"), None);
    assert c.queue == [Notify, Rehydrate];
  }

  lemma DraftInAHolds()
    ensures var texts: Drafts<char> := map["s" := "x"];
      ChatRun(Create(INITIAL, map[], map[]), DraftInA())
      == Chat(INITIAL.(slug := Some("a")), texts, map[], map[WsKey(Some("a")) := texts], map[])
  {
    OpensA();
    ChatRunSnoc(Create(INITIAL, map[], map[]),
                [Ambient(SwitchTo(Some("a"), None)), Ambient(Microtask(map[])), Ambient(Microtask(map[]))],
                SetDraft("s", "x"));
    var texts: Drafts<char> := map["s" := "x"];
    assert Prune(texts) == texts && map[]["s" := "x"] == texts;
    assert texts != map[] by { assert "s" in texts; }
  }

  /** From the start, with every rehydrate done before the first draft, a write after the next
      switch files the first workspace's draft under the second. */
  lemma PendingWriteCanLeak()
    ensures var c := ChatRun(Create(INITIAL, map[], map[]), DraftInA());
      !c.ctx.pendingRehydrate && Leaks(c, "b", "t", "s")
  {
    var texts: Drafts<char> := map["s" := "x"];
    var keyA, keyB := WsKey(Some("a")), WsKey(Some("b"));
    assert keyA[1] == 'a' && keyB[1] == 'b';
    DraftInAHolds();
    var c := ChatRun(Create(INITIAL, map[], map[]), DraftInA());
    var d := ChatStep(c, Ambient(SwitchTo(Some("b"), None)));
    var events := [Ambient(SwitchTo(Some("b"), None)), SetDraft("t", "y")];
    assert events[..1] == [events[0]] && events[..1][..0] == [];
    assert ChatRun(c, events[..1]) == d && ChatRun(c, events) == ChatStep(d, events[1]);
    WriteReads(d.textBlobs, keyB, texts["t" := "y"]);
    assert Prune(texts) == texts;
  }
}
