# Multica client state: a verified model

Multica's web and mobile clients keep several pieces of state consistent on their own: the
comment threads of an issue, the bucketed cache of issue lists, the mention composer, the inbox
list, the current workspace with the chat drafts stored under it, the recently visited contexts,
and the fuse that stops repeated exception events. This project models those state machines and
algorithms in Dafny and proves what they keep.

The model follows the form of the code. Code that works step by step is a method or a class
whose `ensures` name a function of the old state (`Step`, `ChatStep`, `DeleteState`, ...); the
lemmas then speak about those functions, over single steps and over whole runs. Code that only
computes a value is a function.

| file | what it models |
|---|---|
| `Timeline.dfy`, `Threads.dfy`, `ServerThreads.dfy` | timeline entries, the thread of a comment, delete cascade, resolve, the server's own walk |
| `RowSearch.dfy`, `TimelineRows.dfy`, `RowTheorems.dfy` | the mobile rows: the search for replies and when it ends, conservation, rebuild after a delete |
| `Coalesce.dfy` | merging of consecutive identical activity entries |
| `MentionText.dfy`, `MentionTheorems.dfy`, `MentionDocuments.dfy` | open tokens, the serializer, what it links and to whom |
| `MentionInput.dfy`, `MentionComposing.dfy` | the editor state, what is composed with it |
| `MentionLinks.dfy`, `MentionScan.dfy` | the links as the server reads them, one by one and in a whole text |
| `IssueBuckets.dfy`, `BucketTheorems.dfy` | issue lists bucketed by status, as a map from id to issue |
| `IssueCache.dfy`, `QueryClient.dfy`, `CacheTheorems.dfy` | optimistic mutations, rollback, deletes, server events |
| `Paging.dfy`, `PagingTheorems.dfy` | first pages, loading more, the Gantt fetch; columns with gaps, pages among other changes |
| `InboxItems.dfy`, `Inbox.dfy`, `InboxTheorems.dfy` | stable sort, de-duplication, archive and read marks |
| `WorkspaceContext.dfy`, `WorkspaceStorage.dfy` | switching, microtasks, subscribers, namespaced storage |
| `ChatDrafts.dfy`, `ChatStore.dfy` | drafts in memory and in storage |
| `RecentContexts.dfy`, `RecentTheorems.dfy` | recently visited issues and projects |
| `ExceptionFuse.dfy` | the exception fuse |
| `Prelude.dfy` | shared notions |

Where a stated property holds only under a condition, the condition is proved exact:

- Adding an issue to the buckets is safe exactly when no other visible bucket shows its id
  (`AddIsSafeExactlyWhenNotElsewhere`); two events that create one issue under two statuses break a
  list (`CreatedUnderTwoStatuses`).
- A text with mentions is linked exactly when the markers' names are, in order, the words that
  follow the mentions' `@` (`SerializeDocument`), and every mention is linked to its own target
  exactly when the markers are its own in text order and every name is one word that ends where the
  name ends (`OwnTargetsExactly`). Two things break this in the composer. What is composed from left
  to right is linked exactly when no picked name contains whitespace
  (`ComposedTextIsLinkedExactlyWhenSpaceless`): one pick of an ordinary name such as "Ann Lee" loses
  its link (`NameWithSpaceFallsBack`). And markers are kept in the order they were picked, so picking
  out of text order falls back to plain text, or, between two mentions of the same name, links each
  to the other's target (`OutOfOrderPicksFallBack`, `OutOfOrderNamesakesSwap`).
- In a composed text the server finds exactly the mentions' targets, in order, exactly when no link
  is typed in the text between them (`FindsExactlyOwnTargets`); a typed link is found like a picked
  one (`TypedLinkIsFound`).
- An update of an issue reaches every children cache that shows it exactly when the caches agree on
  its parent (`UpdateReachesExactlyWhenParentsAgree`); moving an issue to another parent breaks that
  until the old parent's cache is fetched again (`ReparentBreaksAgreement`, `StaleCopyIsMissed`).
- Archiving before de-duplicating drops the whole entry exactly when archiving reaches everything
  the entry stands for (`ArchiveDropsEntryExactlyWhenItReachesAll`).
- Two workspaces' storage is isolated exactly when neither slug ends in a colon and the other
  (`IsolatedExactlyWhenNoSuffix`). The slugs the server accepts have no colon
  (`ServerSlugsAreIsolated`).
- A draft write stays local exactly when memory and storage agree about every other session
  (`WriteIsLocalExactlyWhenAgreeing`); a write while a rehydrate is pending can break that
  (`PendingWriteCanLeak`). The agreement of memory with storage itself holds in every run.
- The next page completes the server's first |loaded| + 50 issues exactly when every loaded issue is
  among the server's first |loaded| (`ExtendIsCompleteExactlyWhenLoadedAreFirst`). A created issue is
  appended wherever the server lists it, so it leaves a gap exactly when the server lists it behind
  what was loaded (`CreatedSkipsExactlyWhenBeyond`); the issue in the gap is then never loaded, and
  the column offers more for ever (`CreatedIssueHidesAnother`, `MissedIsNeverLoaded`), in the end
  without loading anything (`StuckColumn`).
- A page keeps the cache well formed exactly when what it adds are distinct issues of its status that
  no column shows, no more than announced (`PageIsSafeExactlyWhenItFits`); an issue moved on the server
  can arrive twice (`MovedIssueIsShownTwice`).
- The search for replies ends exactly when no chain of replies comes back to an id it has passed
  (`SearchEndsExactlyWhenNoReturn`). With distinct ids that is so (`DistinctSearchesEnd`), with a
  repeated id it can fail (`RepeatedIdNeverEnds`).
- A pick from an earlier render does what an up-to-date one does exactly when the token shown then
  starts and ends where the open one does (`LatePickIsRightExactly`). What was typed into the query
  since then stays behind the mention (`LatePickLeavesTyped`, `LatePickIsReached`).
- Coalescing twice is coalescing once exactly when no two adjacent runs end in entries that merge
  (`IdempotentExactlyWhenLastsApart`). In time order that is always so (`CoalesceIsIdempotent`), out
  of time order it can fail (`OutOfOrderIsNotIdempotent`).
- The mobile rows hold as many entries as the timeline exactly when no parent chain enters a cycle
  (`RowsConserveEntries`).

The comment in `apps/mobile/lib/timeline-thread.ts` says that the rows always hold as many entries
as the input. With cyclic parent links the entries on and below a cycle are dropped:
`ShownUnlessCyclic` says exactly which, and `MutualParentsAreLost` shows a timeline without rows.

A subscriber to the current workspace is told nothing on joining. One that leaves, misses a switch
and comes back still has the old slug (`RejoiningHearsNothing`); one that stays hears the current
slug once no notification is pending (`StayingSubscribersHear`).

## Model

| member | source | states |
|---|---|---|
| Threads.CollectThreadCommentIds | packages/core/issues/mutations.ts:732-770 | stops on every parent assignment, cycles and missing parents included; for a loaded comment the result is its thread, the least set containing it that is closed under loaded parents and children; for an unknown id it is the id and what hangs below it |
| Threads.WalkToRoot | packages/core/issues/mutations.ts:740-748 | the guarded walk ends at an ancestor that has no loaded parent or lies on a cycle |
| Timeline.ByIdIsLast | packages/core/issues/mutations.ts:736-739 | under a repeated id it is the last comment that is looked up |
| Threads.ExpandDown | packages/core/issues/mutations.ts:758-769 | the stack walk returns the least child-closed set containing the root |
| Threads.ThreadsPartition | packages/core/issues/mutations.ts:727-770 | d is in the thread of c exactly when both have the same thread; different threads are disjoint |
| Threads.ThreadIsUnique | packages/core/issues/mutations.ts:727-770 | a comment has only one thread, so the walk up and down finds the one that was meant |
| Threads.CascadeDelete | packages/core/issues/mutations.ts:692-709 | the fixpoint loop stops at the least child-closed set containing the deleted comment |
| Threads.OptimisticDelete | packages/core/issues/mutations.ts:688-715 | the new timeline is the old one without exactly that set |
| Timeline.WithoutFollows | packages/core/issues/mutations.ts:711-713 | the entries that are left keep their order |
| Threads.SurvivorsKeepTheirParents | packages/core/issues/mutations.ts:692-713 | no entry left after the cascade has a removed parent |
| Threads.OptimisticResolve | packages/core/issues/mutations.ts:777-803 | an unresolve clears its own comment only; a resolve rewrites every entry by the rule, reaching the loaded comment's own thread, or what hangs below an unknown id |
| Threads.ResolveRewritesResolutions | packages/core/issues/mutations.ts:786-801 | nothing but the three resolution fields is rewritten: the target is stamped and keeps who resolved it, the other resolved comments of the thread lose all three, every other entry is as it was |
| Threads.ResolveIsSole | packages/core/issues/mutations.ts:782-801 | after resolving a loaded comment it is the only resolved comment of its thread, and entries outside the thread are unchanged |
| Threads.UnresolveClearsOnlyItself | packages/core/issues/mutations.ts:786-796 | an unresolve clears all three resolution fields of the one comment and touches nothing else |
| Threads.ResolveKeepsSingle | packages/core/issues/mutations.ts:777-803 | one resolve or unresolve keeps "at most one resolved comment per thread" |
| Threads.RunKeepsSingle | packages/core/issues/mutations.ts:777-803 | every run of such steps keeps it |
| ServerThreads.ServerRootExactly | server/pkg/db/queries/comment.sql:397-408 | with every named parent loaded, the server's walk up ends at a root exactly when the comment's parents run into no cycle |
| ServerThreads.ServerFindsTheThread | server/pkg/db/queries/comment.sql:397-419 | then what the server finds below that root is the thread the client's walk finds |
| ServerThreads.ResolveMirrorsServer | packages/core/issues/mutations.ts:722-726 | after the optimistic resolve the same comments are resolved as after the server's transaction, and every row but the target's is the same |
| ServerThreads.ServerResolveStampsTarget | server/pkg/db/queries/comment.sql:374-384 | the target keeps what it has of a resolution and is given the rest, and no other field of any row is written |
| ServerThreads.ServerResolveIsIdempotent | server/pkg/db/queries/comment.sql:374-383 | resolving again keeps the first time and resolver, whoever asks later |
| RowSearch.SearchEndsExactlyWhenNoReturn | apps/mobile/lib/timeline-thread.ts:63-80 | the search loop ends exactly when no chain of replies from the root comes back to an id it has passed |
| RowSearch.RepeatedIdNeverEnds | apps/mobile/lib/timeline-thread.ts:63-80 | a comment and a reply to it under the same id: the search never ends |
| RowSearch.SearchIsUnique | apps/mobile/lib/timeline-thread.ts:63-80 | a search that ends has one outcome |
| TimelineRows.DistinctSearchesEnd | apps/mobile/lib/timeline-thread.ts:82-86 | with distinct ids every search from a top-level comment ends, whatever the parents |
| TimelineRows.BuildTimelineRows | apps/mobile/lib/timeline-thread.ts:37-87 | whenever its searches end it gives, in timeline order, one row for each entry without a loaded parent, with what the search finds; with distinct ids each row holds the expansion |
| TimelineRows.CollectDescendants | apps/mobile/lib/timeline-thread.ts:63-80 | the loop stops whenever the search ends, repeated ids included, with the search's outcome |
| TimelineRows.SearchIsExpansion | apps/mobile/lib/timeline-thread.ts:63-80 | with distinct ids that outcome lists the replies of the root and of everything already listed, each after its parent and no id twice |
| TimelineRows.Partition | apps/mobile/lib/timeline-thread.ts:45-61 | splits the timeline into top-level entries, orphans included, and per-parent reply lists, each in timeline order |
| RowTheorems.ExpansionIsUnique | apps/mobile/lib/timeline-thread.ts:63-80 | there is only one such list, so the search order is determined by the timeline |
| RowTheorems.RowsFollowTimeline | apps/mobile/lib/timeline-thread.ts:49-61 | the rows' entries are exactly the entries without a loaded parent, each once, and of two rows the one whose entry comes first in the timeline comes first |
| RowTheorems.RowOrderIsUnique | apps/mobile/lib/timeline-thread.ts:82-86 | no other list of those entries is in timeline order |
| RowTheorems.RepliesFollowParents | apps/mobile/lib/timeline-thread.ts:63-80 | a row's replies are in the order of their parents in the row, and those of one parent in timeline order |
| RowTheorems.ShownUnlessCyclic | apps/mobile/lib/timeline-thread.ts:37-87 | an entry is shown exactly when its parent chain enters no cycle |
| RowTheorems.RowsAreDisjoint | apps/mobile/lib/timeline-thread.ts:37-87 | no entry is in two rows |
| RowTheorems.RowsConserveEntries | apps/mobile/lib/timeline-thread.ts:24-26 | the rows hold, each once, exactly the entries with acyclic chains; the counts agree with the input exactly when every chain is acyclic |
| RowTheorems.MutualParentsAreLost | apps/mobile/lib/timeline-thread.ts:24-26 | two comments that are each other's parent are in no row |
| RowTheorems.RebuildAfterDelete | packages/core/issues/mutations.ts:711-713 | building rows after removing any child-closed set equals pruning the old rows |
| RowTheorems.CascadeIsRow | packages/core/issues/mutations.ts:692-709 | deleting a top-level comment removes exactly the ids of its row, so the cascade and the breadth-first search agree |
| RowTheorems.DeleteRemovesExactlyOneRow | packages/core/issues/mutations.ts:692-713 | rebuilding the rows after deleting a top-level comment gives the old rows minus that row |
| Coalesce.CoalesceTimeline | apps/mobile/lib/timeline-coalesce.ts:29-58 | the loop returns one summary for each run of the timeline |
| Coalesce.RunsAreSplit | apps/mobile/lib/timeline-coalesce.ts:33-54 | the runs cut the timeline exactly at the adjacent pairs that do not merge |
| Coalesce.SplitIsUnique | apps/mobile/lib/timeline-coalesce.ts:33-54 | there is only one such cut |
| Coalesce.RunsAreOneDoing | apps/mobile/lib/timeline-coalesce.ts:9-18 | a run of more than one entry is one action by one actor, never one that must stay separate |
| Coalesce.ChainIsShownAsOne | apps/mobile/lib/timeline-coalesce.ts:48-51 | entries that merge one after the other are shown as the last of them with their number |
| Coalesce.FinishedTasksMergeAcrossAnyGap | apps/mobile/lib/timeline-coalesce.ts:26-26 | completed or failed tasks of one actor are shown as one however far apart in time |
| Coalesce.CloseEntriesMerge | apps/mobile/lib/timeline-coalesce.ts:41-46 | any other action of one actor but the evaluations is shown as one while neighbours are at most 120000 milliseconds apart, in either direction |
| Coalesce.NeighboursStayApart | apps/mobile/lib/timeline-coalesce.ts:34-46 | a timeline whose neighbours differ in kind, action or actor, are evaluations, or are too far apart for a timed action is shown as it is |
| Coalesce.CountsAddUp | apps/mobile/lib/timeline-coalesce.ts:48-51 | on a timeline without counts the counts shown add up to the number of entries |
| Coalesce.CommentsSurvive | apps/mobile/lib/timeline-coalesce.ts:19-19 | every comment comes through unchanged and in order |
| Coalesce.IdempotentExactlyWhenLastsApart | apps/mobile/lib/timeline-coalesce.ts:29-58 | a second pass changes nothing exactly when no two adjacent runs end in entries that merge |
| Coalesce.CoalesceIsIdempotent | apps/mobile/lib/timeline-coalesce.ts:8-15 | in time order no two adjacent runs do, so a second pass changes nothing |
| Coalesce.OutOfOrderIsNotIdempotent | apps/mobile/lib/timeline-coalesce.ts:42-46 | out of time order a second pass can merge again |
| MentionText.TokenAtCursor | apps/mobile/lib/mention-serialize.ts:47-78 | the backward walk returns the open token at the cursor, or none |
| MentionText.TokenIsUnique | apps/mobile/lib/mention-serialize.ts:41-73 | whatever satisfies the token rule (`@` at a word start, no whitespace and no `@` up to the cursor, no sentinel before it) is the token returned |
| MentionText.AtWithinWordOpensNothing | apps/mobile/lib/mention-serialize.ts:47-78 | an `@` within a word opens nothing |
| MentionText.AtWordStartOpens | apps/mobile/lib/mention-serialize.ts:47-78 | an `@` behind a space opens the query up to the caret |
| MentionText.SpaceCloses | apps/mobile/lib/mention-serialize.ts:47-78 | a space before the caret closes it |
| MentionText.SpacesByCodePoint | apps/mobile/lib/mention-serialize.ts:58-58 | whitespace is exactly these 25 code points |
| MentionText.SerializeMentions | apps/mobile/lib/mention-serialize.ts:122-175 | the scanning loop stops on every text and marker list and computes the parse-and-render function |
| MentionText.SliceMeaning | apps/mobile/lib/mention-serialize.ts:94-97 | a slice is the part between its bounds; a negative bound counts from the end, and past the ends nothing more is taken |
| MentionTheorems.SerializeIsAllOrNothing | apps/mobile/lib/mention-serialize.ts:114-120 | the output has no sentinel and is either the text without sentinels or all markers linked in order such that putting `@name` for each link gives that text |
| MentionDocuments.SerializeDocument | apps/mobile/lib/mention-serialize.ts:134-174 | a document of texts and inserted mentions has all markers linked in order when their names are the words read after each `@`, whatever the names contain; it falls back to the text without sentinels exactly when they are not |
| MentionDocuments.SerializeWellSpaced | apps/mobile/lib/mention-serialize.ts:150-163 | only names are compared: with one-word names the document is linked to any markers that carry its names in text order, and to none otherwise |
| MentionDocuments.OwnTargetsExactly | apps/mobile/lib/mention-serialize.ts:134-174 | every mention is linked to its own target exactly when the markers are the document's own in text order and every name is one word ending where the name ends |
| MentionDocuments.OwnMarkersLinkExactlyWhenWellSpaced | apps/mobile/lib/mention-serialize.ts:134-174 | with its own markers in text order a document is linked when its names are such words, and else falls back |
| MentionDocuments.StraySentinelIsDropped | apps/mobile/lib/mention-serialize.ts:143-148 | a sentinel that no `@` follows is dropped, and the rest is serialized as without it |
| MentionLinks.ServerReadsExactlyTheMention | server/internal/util/mention.go:11-16 | the server's pattern matches a rendered link exactly when its caption is not empty and the name has no newline, and then captures the mention's own kind and id and no other |
| MentionLinks.LinksLetterByLetter | apps/mobile/lib/mention-serialize.ts:160-163 | the links of the five kinds, letter by letter; an issue's caption goes without the `@` |
| MentionLinks.ServerIdsLetterByLetter | server/internal/util/mention.go:16-16 | the ids the server reads are `all` or hexadecimal digits and dashes, at least one |
| MentionScan.FindsOnce | server/internal/util/mention.go:24-26 | the scan for links has one outcome on every text |
| MentionScan.FindsExactlyOwnTargets | server/internal/util/mention.go:12-36 | from a linked document the scan finds exactly the mentions' targets, in order, exactly when no link is typed between the mentions |
| MentionScan.ComposedMentionsAreFound | server/internal/util/mention.go:24-36 | from the composer to the server: the same for what is composed from left to right with one-word names |
| MentionScan.TypedLinkIsFound | server/internal/util/mention.go:16-16 | a typed link is found like a picked one |
| MentionScan.BareLinkIsReadExactly | server/internal/util/mention.go:16-16 | a link whose caption is a bare `@`, with no bracket in front, is read exactly when its line holds no later link end |
| MentionScan.InnerLinkIsReadFirst | server/internal/util/mention.go:16-16 | where a caption holds a link end, what is read first ends before the own end |
| MentionInput.MentionInput.OnChangeText | apps/mobile/lib/use-mention-input.ts:115-124 | sets the text and recomputes the open token at the known caret, leaving selection and markers |
| MentionInput.MentionInput.OnSelectionChange | apps/mobile/lib/use-mention-input.ts:126-135 | sets the selection and recomputes the open token in the known text |
| MentionInput.MentionInput.OnAtButtonPress | apps/mobile/lib/use-mention-input.ts:137-154 | inserts `@`, padded when needed, over the selection and recomputes |
| MentionInput.MentionInput.OnSelectMention | apps/mobile/lib/use-mention-input.ts:156-172 | replaces the token its own render showed in the present text, appends the marker and closes the bar; a no-op when that render showed none |
| MentionInput.MentionInput.InsertTextAtCursor | apps/mobile/lib/use-mention-input.ts:174-191 | literal insertion over the selection, caret offset from the end, bar closed |
| MentionInput.MentionInput.InsertTextAtLineStart | apps/mobile/lib/use-mention-input.ts:193-213 | inserts at the start of the caret's line, caret shifted, bar closed |
| MentionInput.InsertionReplacesSelection | apps/mobile/lib/use-mention-input.ts:174-191 | an insertion replaces exactly the selection, leaves the caret the given distance from its end and the markers alone, and closes the bar |
| MentionInput.LinePrefixKeepsCaret | apps/mobile/lib/use-mention-input.ts:193-213 | a line prefix goes after the last newline before the selection, the caret keeps its place in the text, the markers stay and the bar closes |
| MentionInput.MentionStaysCurrent | apps/mobile/lib/use-mention-input.ts:105-172 | over every run of handlers the open mention is none or the token at the caret |
| MentionInput.PickReplacesToken | apps/mobile/lib/use-mention-input.ts:156-172 | picking replaces exactly the token that ends at the caret and leaves the rest of the text |
| MentionInput.LatePickIsRightExactly | apps/mobile/lib/use-mention-input.ts:156-172 | a pick from an earlier render equals an up-to-date one exactly when both tokens start and end at the same places or neither is open |
| MentionInput.LatePickLeavesTyped | apps/mobile/lib/use-mention-input.ts:156-172 | what was typed into the query after that render stays behind the inserted mention |
| MentionInput.LatePickIsReached | apps/mobile/lib/use-mention-input.ts:115-172 | four native events after which a pick from the render in between keeps a typed character |
| MentionInput.AtButtonOpensEmptyQuery | apps/mobile/lib/use-mention-input.ts:137-154 | from every state the `@` button opens an empty query at the caret |
| MentionInput.AtButtonInsertsAt | apps/mobile/lib/use-mention-input.ts:137-154 | the `@` replaces the selection, with one space in front exactly when it would stand right behind something else; the rest of the text and the markers stay, and the caret is behind it |
| MentionInput.RestoreBringsBack | apps/mobile/lib/use-mention-input.ts:220-239 | restoring a snapshot after any run brings back text, selection and markers with the bar closed; a reset empties the composer |
| MentionInput.MentionInput.SerializeText | apps/mobile/lib/use-mention-input.ts:215-218 | serializes the present text with the present markers |
| MentionInput.MentionInput.RestoreSnapshot | apps/mobile/lib/use-mention-input.ts:225-232 | takes over text, markers and selection of the snapshot and closes the bar |
| MentionInput.MentionInput.Reset | apps/mobile/lib/use-mention-input.ts:234-241 | empties the composer |
| MentionInput.KeystrokeOrderIsIrrelevant | apps/mobile/lib/use-mention-input.ts:93-98 | the two native events of a keystroke give the same state in either order |
| MentionComposing.ComposeRepresents | apps/mobile/lib/use-mention-input.ts:115-172 | over every run of appending text and picking at the end, with any names, the editor represents the document those actions describe |
| MentionComposing.TypedMention | apps/mobile/lib/use-mention-input.ts:156-172 | typing text, an `@` at a word start and a query, and picking: the query is gone, the text stays, the mention is the document's last |
| MentionComposing.ComposedTextIsLinkedExactlyWhenSpaceless | apps/mobile/lib/mention-serialize.ts:150-160 | serializing such a text links every mention to its own marker when no picked name contains whitespace, and links nothing otherwise |
| MentionComposing.NameWithSpaceFallsBack | apps/mobile/lib/mention-serialize.ts:150-160 | one pick of "Ann Lee" is sent as plain text |
| MentionComposing.PickTwoBackwardsReaches | apps/mobile/lib/use-mention-input.ts:137-172 | pick, move the caret to the start, press `@`, pick: the handlers end with the markers against text order |
| MentionComposing.OutOfOrderPicksFallBack | apps/mobile/lib/use-mention-input.ts:168-168 | after that run two different names lose both links |
| MentionComposing.OutOfOrderNamesakesSwap | apps/mobile/lib/use-mention-input.ts:168-168 | after that run two equal one-word names are linked to each other's target |
| IssueBuckets.MergeLaws | packages/core/issues/cache-helpers.ts:78-78 | merging a patch keeps the id, changes nothing for an empty patch and everything else for a full one, and nothing more the second time |
| IssueBuckets.LocationIsRight | packages/core/issues/cache-helpers.ts:26-37 | a located issue is shown under the status returned; none is returned only when nothing shown has the id |
| IssueBuckets.ViewHolds | packages/core/issues/queries.ts:125-132 | in a well-formed cache the map view holds exactly the issues shown |
| BucketTheorems.AddRefines | packages/core/issues/cache-helpers.ts:39-50 | adding keeps the cache well formed, inserts into the map view, and moves the visible totals with the number of issues |
| BucketTheorems.AddIsSafeExactlyWhenNotElsewhere | packages/core/issues/cache-helpers.ts:44-45 | adding keeps the cache well formed exactly when no other visible bucket holds the id |
| BucketTheorems.AddedUnderTwoStatuses | packages/core/issues/cache-helpers.ts:44-49 | one issue added under two statuses is shown twice |
| BucketTheorems.RemoveRefines | packages/core/issues/cache-helpers.ts:52-64 | removing deletes from the map view and moves the totals likewise |
| BucketTheorems.PatchRefines | packages/core/issues/cache-helpers.ts:66-100 | patching updates the map view, or deletes from it when the issue becomes cancelled |
| BucketTheorems.AddPutsLast | packages/core/issues/cache-helpers.ts:44-49 | a new issue goes to the end of its status, counted once; no other bucket changes |
| BucketTheorems.RemoveTakesOut | packages/core/issues/cache-helpers.ts:57-63 | a removed issue leaves its bucket, whose others keep their order, counted once; no other bucket changes |
| BucketTheorems.PatchKeepsPlaces | packages/core/issues/cache-helpers.ts:78-87 | a patch that keeps the status changes the issue in its place and no total |
| BucketTheorems.PatchMovesToEnd | packages/core/issues/cache-helpers.ts:89-99 | a patch that changes the status takes the issue out of its bucket and puts it at the end of the other, hidden or shown, and moves one of each total |
| BucketTheorems.RunRefines | packages/core/issues/cache-helpers.ts:39-100 | every run of allowed adds, removes and patches keeps the buckets well formed, acts as on a map by id, and changes the visible totals by exactly the change in issues shown |
| BucketTheorems.FlattenIsView | packages/core/issues/queries.ts:124-132 | the flattened list is the map view, each issue once |
| BucketTheorems.FlattenIsColumnByColumn | packages/core/issues/queries.ts:121-132 | the flattened list is the six shown columns one after the other, each in its own order, without the cancelled issues |
| IssueCache.PutBackRestores | packages/core/issues/mutations.ts:268-273 | writing a snapshot back undoes every change under the keys it covers |
| QueryClients.QueryClient.OnMutateUpdate | packages/core/issues/mutations.ts:217-267 | patches lists, detail and the parent's children, with the context that undoes it; the parent is the freshest known one |
| CacheTheorems.UpdateMeaning | packages/core/issues/mutations.ts:251-259 | every list acts as a map under the patch, the issue's detail is merged with it, and no other detail or "my issues" list changes |
| CacheTheorems.UpdatePatchesChildren | packages/core/issues/mutations.ts:260-266 | of the children caches the one under the chosen parent is patched, in place |
| CacheTheorems.UpdatedParentMeaning | packages/core/issues/mutations.ts:227-250 | the parent is the detail's, else the first list's, and if that names none the first children cache that holds the issue |
| CacheTheorems.UpdateReachesExactlyWhenParentsAgree | packages/core/issues/mutations.ts:227-265 | every patch reaches every children cache that shows the issue exactly when no other parent's cache than the known one, and no two, hold it |
| CacheTheorems.ReparentBreaksAgreement | packages/core/issues/ws-updaters.ts:81-85 | the event that moves an issue to another parent leaves it in the old parent's children cache, so that the caches disagree |
| CacheTheorems.StaleCopyIsMissed | packages/core/issues/ws-updaters.ts:81-85 | the state such an event leads to, with an update that misses the old parent's copy |
| QueryClients.QueryClient.FailedUpdate | packages/core/issues/mutations.ts:217-282 | an update followed by its error handler leaves every cache as it was |
| QueryClients.QueryClient.CollectDeletedIssueCacheMetadata | packages/core/issues/delete-cache.ts:41-73 | collects every non-empty parent named by the detail, a list, a "my issues" list or a children cache |
| CacheTheorems.DeletedParentsMeaning | packages/core/issues/delete-cache.ts:41-73 | a parent is collected exactly when it is not empty and the detail, a shown issue of a list or of a "my issues" list, or the first such issue of a children cache names it, or its own children cache holds the issue |
| QueryClients.PruneReachesAll | packages/core/issues/delete-cache.ts:41-108 | the collected parents are enough: pruning at them prunes every per-parent children cache |
| QueryClients.QueryClient.OnMutateDelete | packages/core/issues/mutations.ts:335-363 | prunes every list, "my issues" list, children cache and the detail, with snapshots of all that change |
| QueryClients.QueryClient.FailedDelete | packages/core/issues/mutations.ts:335-383 | a delete followed by its error handler leaves every cache as it was |
| QueryClients.QueryClient.OnMutateBatchUpdate | packages/core/issues/mutations.ts:410-440 | patches each list by every id in turn and each children cache by the whole set |
| CacheTheorems.BatchPatchRefines | packages/core/issues/mutations.ts:414-419 | after a batch each shown issue among the ids carries the patch, or is gone if that cancels it, every other issue is as it was and the totals move with them; order and repetition of the ids make no difference |
| CacheTheorems.BatchUpdateMeaning | packages/core/issues/mutations.ts:410-440 | so in every list; in every children cache the issues among the ids carry the patch in their places; details and "my issues" lists are untouched |
| QueryClients.QueryClient.FailedBatchUpdate | packages/core/issues/mutations.ts:410-452 | a batch update followed by its error handler leaves every cache as it was |
| QueryClients.QueryClient.OnMutateBatchDelete | packages/core/issues/mutations.ts:481-523 | prunes by every id in turn with the parents collected before the first |
| QueryClients.PruneReachesAllLater | packages/core/issues/mutations.ts:486-521 | parents collected before the batch still suffice after part of it |
| QueryClients.QueryClient.FailedBatchDelete | packages/core/issues/mutations.ts:481-540 | a batch delete followed by its error handler leaves every cache as it was |
| IssueCache.UpdateRollsBack | packages/core/issues/mutations.ts:268-282 | the undo of an update is exact for whichever parent was picked |
| IssueCache.DeleteRollsBack | packages/core/issues/mutations.ts:364-383 | the undo of a delete is exact as long as the snapshots cover what held the id |
| IssueCache.BatchUpdateRollsBack | packages/core/issues/mutations.ts:441-452 | the undo of a batch update is exact |
| IssueCache.BatchDeleteRollsBack | packages/core/issues/mutations.ts:524-540 | the undo of a batch delete is exact |
| CacheTheorems.RemoveFiltersBuckets | packages/core/issues/cache-helpers.ts:52-64 | removal filters the id out of every visible bucket and keeps the order of the rest |
| CacheTheorems.DeleteLeavesNoTrace | packages/core/issues/delete-cache.ts:75-108 | after a delete the detail is gone and every list, "my issues" list and per-parent children cache holds what it held without the id, in the same order |
| CacheTheorems.BatchDeleteLeavesNoTrace | packages/core/issues/mutations.ts:515-521 | the same for all ids of a batch, whatever their order or repetition |
| QueryClients.QueryClient.OnIssueCreated | packages/core/issues/ws-updaters.ts:14-37 | adds the issue to every cached list |
| CacheTheorems.CreatedTouchesLists | packages/core/issues/ws-updaters.ts:19-21 | the event inserts into every list and changes nothing else |
| QueryClients.QueryClient.OnIssueUpdated | packages/core/issues/ws-updaters.ts:39-100 | patches every list and the detail, and the old parent's children unless the parent changed |
| CacheTheorems.UpdatedMeaning | packages/core/issues/ws-updaters.ts:60-79 | the event patches every list and the detail as an update does |
| CacheTheorems.UpdatedTouchesOldParent | packages/core/issues/ws-updaters.ts:49-88 | of the children caches it patches that of the parent known so far, unless the patch sets another parent |
| QueryClients.QueryClient.OnIssueLabelsChanged | packages/core/issues/ws-updaters.ts:114-125 | patches the labels in every list and the detail |
| CacheTheorems.LabelsEventSetsLabels | packages/core/issues/ws-updaters.ts:114-125 | the event sets the labels of the one issue in every list and in the detail, and no other field or cache |
| QueryClients.QueryClient.OnIssueDeleted | packages/core/issues/ws-updaters.ts:172-181 | leaves the caches as a delete does and drops the deleted issue's own children cache |
| CacheTheorems.EventsRefine | packages/core/issues/ws-updaters.ts:14-181 | over every run of server events each cached list acts as a map by id, while no created issue is already shown under another status |
| CacheTheorems.ListsStayInAgreement | packages/core/issues/ws-updaters.ts:14-181 | two lists that show the same issues go on showing the same issues |
| CacheTheorems.CreatedUnderTwoStatuses | packages/core/issues/ws-updaters.ts:14-21 | two events that create one issue under two statuses leave a list that is not well formed |
| CacheTheorems.UpdateEchoIsHarmless | packages/core/issues/ws-updaters.ts:39-100 | after an optimistic update the event with the same patch changes nothing, except in the children cache of a parent the patch sets |
| CacheTheorems.DeleteEchoIsHarmless | packages/core/issues/ws-updaters.ts:172-181 | after an optimistic delete the event changes nothing but the issue's own children cache |
| CacheTheorems.CreateEchoIsHarmless | packages/core/issues/ws-updaters.ts:14-21 | the event for an issue already added changes nothing |
| Paging.FetchProjectGanttIssues | packages/core/issues/queries.ts:324-340 | for every server at most twenty requests, at 0, 500, 1000, ..., up to the first page that says to stop, with the answers joined in order |
| Paging.StopsAtShortPageOrTotal | packages/core/issues/queries.ts:335-336 | for any server a page says to stop exactly when it holds fewer than 500 issues or as many have arrived as it announces |
| Paging.GanttFetchesAll | packages/core/issues/queries.ts:309-340 | against exact windows the result is the first 10000 issues of the list, in order |
| Paging.ExtendGrowsPrefix | packages/core/issues/mutations.ts:100-109 | a bucket that is a prefix of the server's list grows by the next page, in order, and takes over the server's total |
| Paging.LoadMoreKeepsLoaded | packages/core/issues/mutations.ts:89-109 | whatever the server answers: without more to load nothing changes, else the column keeps what it holds, takes over the announced total and no other column changes |
| PagingTheorems.ExtendIsCompleteExactlyWhenLoadedAreFirst | packages/core/issues/mutations.ts:93-109 | the next page completes the server's first loaded + 50 issues exactly when every loaded issue is among the server's first loaded; past the end of the list it brings nothing |
| PagingTheorems.CreatedSkipsExactlyWhenBeyond | packages/core/issues/ws-updaters.ts:19-21 | after a created issue is appended the next page leaves a gap exactly when the server lists that issue behind what was loaded |
| PagingTheorems.CreatedIssueHidesAnother | packages/core/issues/mutations.ts:86-109 | then no run of loads brings the issue in the gap, and more is offered throughout |
| PagingTheorems.MissedIsNeverLoaded | packages/core/issues/mutations.ts:86-109 | the same for every column that misses an issue in front of where it asks |
| PagingTheorems.StuckColumn | packages/core/issues/mutations.ts:86-109 | with all other issues loaded, loading changes nothing and more is offered all the same |
| PagingTheorems.PageIsSafeExactlyWhenItFits | packages/core/issues/mutations.ts:100-109 | a page, whatever it holds, keeps the cache well formed exactly when what it adds are distinct issues of its status that no column shows, within the announced total |
| PagingTheorems.MovedIssueIsShownTwice | packages/core/issues/mutations.ts:103-104 | ids are compared within a column only: an issue moved on the server is shown under both statuses |
| PagingTheorems.MixedRunRefines | packages/core/issues/mutations.ts:100-109 | over every run of adds, removals, patches and fitting pages the cache stays well formed and acts as a map by id, and the number of issues announced but not shown changes by the pages' corrections alone |
| Paging.LoadsGrowPrefix | packages/core/issues/mutations.ts:89-115 | over every interleaving of loads a column holds exactly the prefix its own loads asked for |
| Paging.LoadingKeepsWellFormed | packages/core/issues/queries.ts:134-147 | from the first pages, every run of loads keeps the cache well formed, and enough loads show the whole list and offer nothing more |
| InboxItems.SortIsStable | packages/core/inbox/queries.ts:69-73 | the sort puts newer items first and keeps the order of items of one time |
| InboxItems.StableSortIsUnique | packages/core/inbox/queries.ts:69-73 | only one list is newest first and stable |
| Inbox.DeduplicateInboxItems | packages/core/inbox/queries.ts:38-74 | the grouping and merging loops compute the de-duplication function |
| Inbox.DeduplicateMeaning | packages/core/inbox/queries.ts:33-74 | one entry for each key among the unarchived items and no other, newest first, each the newest of its group and carrying the newest available comment when it names none |
| Inbox.CarriedCommentIsAdded | packages/core/inbox/queries.ts:59-63 | a carried comment is the one named afterwards, and every other field and detail stays |
| InboxTheorems.DeduplicateIsIdempotent | packages/core/inbox/queries.ts:38-74 | de-duplicating twice is de-duplicating once |
| InboxTheorems.ArchiveDropsEntryExactlyWhenItReachesAll | packages/core/inbox/mutations.ts:34-47 | archiving and then de-duplicating is de-duplicating and then dropping the entry, exactly when every unarchived item of the entry is the target or shares its non-empty issue id |
| InboxTheorems.ArchiveDropsEntry | packages/core/inbox/mutations.ts:34-47 | non-empty issue ids that are no item's id are enough |
| InboxTheorems.ArchiveTouchesOnlyHits | packages/core/inbox/mutations.ts:35-46 | position by position, archived are the target and whatever shares its non-empty issue id, and nothing else changes |
| InboxTheorems.ArchiveMayLeaveTheEntry | packages/core/inbox/mutations.ts:37-45 | an item id that is another item's issue id leaves the entry in place |
| InboxTheorems.MarkingCommutes | packages/core/inbox/mutations.ts:12-19 | marking as read before or after de-duplicating is the same |
| InboxTheorems.MarkingTouchesOnlyRead | packages/core/inbox/mutations.ts:15-17 | position by position, marking one id sets `read` on the items with that id, marking all on the unarchived ones, and nothing else changes |
| InboxTheorems.MarkOneLowersTheBadge | packages/core/inbox/queries.ts:17-31 | marking one id lowers the unread count by one exactly when an unread entry has that id |
| InboxTheorems.MarkAllClearsTheBadge | packages/core/inbox/queries.ts:17-31 | after "mark all read" the unread count is zero |
| InboxTheorems.InboxCache.FailedArchive | packages/core/inbox/mutations.ts:34-51 | an archive followed by its error handler leaves the list as it was |
| InboxTheorems.InboxCache.FailedRead | packages/core/inbox/mutations.ts:7-27 | a read mark followed by its error handler leaves the list as it was |
| WorkspaceContext.Workspace.SetCurrentWorkspace | packages/core/platform/workspace-storage.ts:34-64 | the same slug only updates the id; another slug queues each kind of microtask that is not pending |
| WorkspaceContext.SwitchQueuesOnlyForAnotherSlug | packages/core/platform/workspace-storage.ts:34-64 | the same slug again changes nothing but the id; another one leaves both kinds of microtask pending, the notification ahead when neither was |
| WorkspaceContext.QueueIsFirstInFirstOut | packages/core/platform/workspace-storage.ts:44-63 | microtasks run in the order they were queued, those queued by a running one last |
| WorkspaceContext.SubscribersStandInJoinOrder | packages/core/platform/workspace-storage.ts:80-87 | a newcomer is told last, joining again changes nothing, and leaving keeps the order of the others |
| WorkspaceContext.Workspace.SubscribeToCurrentSlug | packages/core/platform/workspace-storage.ts:80-83 | a newcomer joins with the slug of that moment and has been told nothing; one that is there stays as it is |
| WorkspaceContext.Workspace.Unsubscribe | packages/core/platform/workspace-storage.ts:84-86 | takes the subscriber out and leaves the rest |
| WorkspaceContext.SlugAndIdAreOfLastCall | packages/core/platform/workspace-storage.ts:34-52 | over every run, switches by told subscribers included, slug and id are the pair of the last call made |
| WorkspaceContext.Workspace.RunMicrotask | packages/core/platform/workspace-storage.ts:46-63 | clears the flag first, then tells every subscriber the slug read at the start, with switches made by subscribers on the way |
| WorkspaceContext.TellReaches | packages/core/platform/workspace-storage.ts:48-54 | everybody told has heard that slug, and if it is no longer current another notification is queued |
| WorkspaceContext.RunIsConsistent | packages/core/platform/workspace-storage.ts:34-87 | over every run each kind of microtask is queued at most once, no subscriber twice, and unless a notification is pending every subscriber is up to date: told since it joined it heard the current slug, else it joined under that slug |
| WorkspaceContext.StayingSubscribersHear | packages/core/platform/workspace-storage.ts:45-55 | a subscriber from before a change of slug that stays has heard the current slug whenever no notification is pending |
| WorkspaceContext.RejoiningHearsNothing | packages/core/platform/workspace-storage.ts:80-87 | one that leaves, misses a switch and joins again still has the old slug, with nothing pending |
| WorkspaceContext.TwoMicrotasksSettle | packages/core/platform/workspace-storage.ts:45-63 | from every reachable state two quiet microtasks empty the queue, keep the slug and leave every subscriber up to date |
| WorkspaceStorage.ShareKeyExactly | packages/core/platform/workspace-storage.ts:106-117 | two slugs share a storage key exactly when they are equal or one ends in a colon and the other |
| WorkspaceStorage.IsolatedExactlyWhenNoSuffix | packages/core/platform/workspace-storage.ts:106-117 | no operation under one slug changes any read under another exactly when neither ends in a colon and the other |
| WorkspaceStorage.WorkspacesDoNotInterfere | packages/core/platform/workspace-storage.ts:93-117 | with colon-free slugs, what a workspace reads after any run is what its own operations alone would have left |
| WorkspaceStorage.ReadsWhatWasPut | packages/core/platform/workspace-storage.ts:106-117 | under a slug a key reads what was put there last, nothing after an erase, and other keys are unaffected; without a slug nothing is read or stored |
| WorkspaceStorage.ReplaySnoc | packages/core/platform/workspace-storage.ts:106-117 | the effect of a log is that of its operations one after the other |
| WorkspaceStorage.WorkspaceAwareStorage.GetItem | packages/core/platform/workspace-storage.ts:108-109 | reads under the slug of the call, nothing without one |
| WorkspaceStorage.WorkspaceAwareStorage.SetItem | packages/core/platform/workspace-storage.ts:110-112 | writes under the slug of the call, nowhere without one |
| WorkspaceStorage.WorkspaceAwareStorage.RemoveItem | packages/core/platform/workspace-storage.ts:113-115 | erases under the slug of the call, nothing without one |
| WorkspaceStorage.ColonSlugsInterfere | packages/core/platform/workspace-storage.ts:109-115 | a slug with a colon can reach into another workspace |
| WorkspaceStorage.ServerSlugsAreIsolated | server/internal/handler/workspace.go:21-21 | slugs the server accepts have no colon, so two of them never interfere |
| WorkspaceStorage.SlugIsWordsAndDashes | server/internal/handler/workspace.go:21-21 | a slug is a word of lower-case letters and digits, or such a word, a dash and again a slug |
| ChatDrafts.WriteReads | packages/core/chat/store.ts:39-61 | reading back a written record gives it without empty entries, and other workspaces' records are untouched |
| ChatDrafts.KeysAreApart | packages/core/chat/store.ts:159-162 | every workspace has a key of its own; without a slug the record's own key is used |
| ChatDrafts.OnlyFilledEntriesAreStored | packages/core/chat/store.ts:50-61 | a stored record holds exactly the entries that are not empty, is there only while it has one, and no other record is touched |
| ChatDrafts.DraftEventsEditMemory | packages/core/chat/store.ts:204-245 | in memory each draft event edits the entry of its session and no other, pending rehydrate or not |
| ChatDrafts.FileEventsEditMemory | packages/core/chat/store.ts:211-229 | the same for attachments; setting none removes the session's entry |
| ChatDrafts.MemoryAgreesWithStorage | packages/core/chat/store.ts:204-245 | over every run of switches, microtasks, writes and clears: when no rehydrate is pending the drafts in memory are what storage holds for the current workspace |
| ChatDrafts.WriteIsLocalExactlyWhenAgreeing | packages/core/chat/store.ts:204-210 | writing one session's draft changes only that entry of the stored record exactly when memory and storage agree on all others |
| ChatDrafts.WorkspacesKeepTheirDrafts | packages/core/chat/store.ts:204-284 | over every run without a write while a rehydrate is pending, storage is a plain table for each workspace in which each draft event edits one entry of the current one |
| ChatDrafts.PendingWriteCanLeak | packages/core/chat/store.ts:204-210 | from the initial state, a write between a switch and its rehydrate files the old workspace's draft under the new one |
| ChatStores.ChatStore.SetInputDraft | packages/core/chat/store.ts:204-210 | replaces the entry in memory and writes the pruned record under the current key |
| ChatStores.ChatStore.SetInputDraftAttachments | packages/core/chat/store.ts:211-218 | replaces the list in memory, an empty one dropping the entry, and writes the pruned record under the current key |
| ChatStores.ChatStore.AddInputDraftAttachment | packages/core/chat/store.ts:219-229 | replaces the attachment with the same id or appends it; one without an id is ignored |
| ChatDrafts.UpsertKeepsOnePerId | packages/core/chat/store.ts:221-225 | adding an attachment holds it once under its id, in the place of the one it replaces or last, and leaves the others as they were |
| ChatStores.ChatStore.ClearInputDraft | packages/core/chat/store.ts:230-245 | removes both entries and writes both records, or does nothing when neither is there |
| ChatStores.ChatStore.OnRehydrate | packages/core/chat/store.ts:265-284 | reads both records back for the workspace that is current now |
| RecentContexts.RunIsBounded | packages/core/chat/recent-context-store.ts:40-101 | over every run: at most 50 workspaces, each listed once, with non-empty buckets of at most 20 distinct contexts |
| RecentTheorems.RecentContextStore.RecordVisit | packages/core/chat/recent-context-store.ts:40-74 | heads the workspace's bucket with the visit, cuts it to twenty, and evicts one workspace past fifty |
| RecentContexts.VisitHeadsBucket | packages/core/chat/recent-context-store.ts:42-60 | the visit heads its bucket before the entries under other references, in order, cut to twenty; a new workspace is listed last; no other bucket changes |
| RecentTheorems.RecentContextStore.ForgetContext | packages/core/chat/recent-context-store.ts:75-89 | drops the context, and the workspace with its last one |
| RecentContexts.ForgetTakesOnlyThat | packages/core/chat/recent-context-store.ts:75-89 | exactly the one context leaves the one workspace, which goes with its last one; everything else keeps its place |
| RecentTheorems.RecentContextStore.PruneWorkspaces | packages/core/chat/recent-context-store.ts:90-101 | keeps exactly the active workspaces, in order |
| RecentContexts.PruneKeepsActive | packages/core/chat/recent-context-store.ts:90-100 | exactly the active workspaces are left, with their entries and in their order |
| RecentTheorems.EvictionTakesLeastRecent | packages/core/chat/recent-context-store.ts:62-71 | with an increasing clock eviction takes the one workspace with the oldest head, never the one visited |
| RecentContexts.OldestIsFirstOfTies | packages/core/chat/recent-context-store.ts:64-68 | the workspace chosen is no newer than any other, and the one listed first on a tie |
| RecentTheorems.NewcomerEvictedExactlyWhenOlderThanAll | packages/core/chat/recent-context-store.ts:62-71 | with any clock the fifty-first workspace is turned away at once exactly when its visit is older than every head |
| RecentTheorems.BucketsRememberLatest | packages/core/chat/recent-context-store.ts:42-60 | in a run of visits to at most fifty workspaces each bucket is the first twenty of its latest visits |
| RecentTheorems.LatestMeaning | packages/core/chat/recent-context-store.ts:42-57 | those are the last visits to each context, each context once, newest first |
| ExceptionFuse.Fuse.ShouldDropException | packages/core/analytics/exception-dedupe.ts:40-78 | keeps whatever cannot be decided, drops at the limit, counts otherwise |
| ExceptionFuse.FailuresKeepTheEvent | packages/core/analytics/exception-dedupe.ts:40-94 | without a fingerprint, storage or a read nothing happens, a refused write leaves the record as it was, and an unusable record or count starts again from one, all with the event kept |
| ExceptionFuse.SessionIsSound | packages/core/analytics/exception-dedupe.ts:40-94 | whatever storage refuses: at most fifty fingerprints, counts from one to three, never above the events kept |
| ExceptionFuse.DroppedOnlyAfterThree | packages/core/analytics/exception-dedupe.ts:14-18 | an event is dropped only after three events with its fingerprint were kept, even when reads or writes fail |
| ExceptionFuse.DroppedExactlyFromTheFourth | packages/core/analytics/exception-dedupe.ts:24-30 | when storage works an event is dropped exactly when its fingerprint is among the first fifty and has occurred three times before |

## Left out

- Paging.GanttFetchesAll: the list is fixed while it is fetched; a list that changes between requests is not modelled.
- IssueBuckets.ViewHolds: speaks of visible buckets only; cancelled issues may be held in a bucket that nothing shows.
- QueryClients.QueryClient.OnIssueLabelsChanged: the per-issue label cache and the Gantt caches it also patches are not modelled.
- MentionDocuments.SerializeDocument: texts and names have no sentinel character of their own; `SerializeIsAllOrNothing` speaks of all texts.
- MentionScan.FindsExactlyOwnTargets: asks of each mention an id the server reads and a caption that is not a bare `@` and holds no link itself; `BareLinkIsReadExactly` and `InnerLinkIsReadFirst` say what is read first at one such link, not what is found in a document with several.
- MentionScan.ComposedMentionsAreFound: the same.
- MentionScan.FindsOnce: the targets are listed as they are found; `ParseMentions` then drops repeated ones.
- MentionInput.MentionStaysCurrent: raw `setText` and `setSelection` by callers are not modelled.
- WorkspaceContext.RunIsConsistent: callbacks do not throw and do not subscribe or unsubscribe while being told.
- WorkspaceContext.Workspace.RunMicrotask: the same; callbacks may switch the workspace.
- ServerThreads.ServerFindsTheThread: comments of one issue, all loaded; on a cycle the server's walk up finds no root, and that it would not end there is not modelled.
- ChatDrafts.MemoryAgreesWithStorage: drafts and attachments only; session, agent, size and open flags are plain setters.
- HTTP, schemas and parse fallbacks: the server appears as a function from request to page.
- React rendering, effects and query scheduling: `invalidateQueries` and `cancelQueries` change no cached data and do not appear.
- JSON text, dates and regular expressions: stored records, integer times and a whitespace predicate stand for them; text is a sequence of characters, not of UTF-16 units.
- Cached queries that hold no data: they are keys without a value, and writing "no data" to them is a no-op.
- Entries under the "my issues" prefix that are grouped by assignee: every entry there is taken to have buckets.
- Patches that change the id, or that carry an explicit `undefined` field.
- More than one workspace in the query cache: every issue key belongs to the same one.
- Fields of issues, entries and inbox items that no modelled step reads.
- Key order of JavaScript objects with integer-like keys: workspace ids keep insertion order.
- `fetchAllMyFirstPages`, the assignee-grouped pages and chunked child hydration: unions and de-duplications that would add only easy members.
- `onIssueMetadataChanged`: a patch like the label event.
- The recent-issues store of the command bar, the mobile copies of de-duplication and of the recent list: the same algorithms.
- Fingerprint construction and hashing in analytics: the fingerprint is an opaque value.
- Permissions, label and status tables, navigation, theming and documentation.
