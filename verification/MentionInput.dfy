/** The composer's editing state: text, selection, markers and the open mention. */
module MentionInput {
  import opened Prelude
  import opened MentionText

  datatype Selection = Selection(start: int, end: int)

  datatype Snapshot = Snapshot(text: string, markers: seq<Marker>, selection: Selection)

  datatype Editor = Editor(text: string, selection: Selection, markers: seq<Marker>, mentioning: Option<Token>)

  const EMPTY := Editor("", Selection(0, 0), [], None)

  function ChangeText(s: Editor, next: string): Editor {
    s.(text := next, mentioning := OpenToken(next, s.selection.end))
  }

  function ChangeSelection(s: Editor, sel: Selection): Editor {
    s.(selection := sel, mentioning := OpenToken(s.text, sel.end))
  }

  function Before(s: Editor): string {
    Slice(s.text, 0, s.selection.start)
  }

  function AfterSelection(s: Editor): string {
    Slice(s.text, s.selection.end, |s.text|)
  }

  function PressAt(s: Editor): Editor {
    var before := Before(s);
    var needsPad := |before| > 0 && !IsSpace(before[|before| - 1]);
    var inserted := if needsPad then " @" else "@";
    var next := before + inserted + AfterSelection(s);
    var cursor := |before| + |inserted|;
    s.(text := next, selection := Selection(cursor, cursor), mentioning := OpenToken(next, cursor))
  }

  /** A pick reads the open mention that the last render showed, and the text as it is now. */
  function PickShown(s: Editor, shown: Option<Token>, m: Marker): Editor {
    match shown
    case None => s
    case Some(t) =>
      var (text, cursor) := InsertMention(s.text, t.start, |t.query|, m);
      Editor(text, Selection(cursor, cursor), s.markers + [m], None)
  }

  /** A pick when the last render is up to date. */
  function SelectMention(s: Editor, m: Marker): Editor {
    PickShown(s, s.mentioning, m)
  }

  function InsertAtCursor(s: Editor, insert: string, offsetFromEnd: int): Editor {
    var before := Before(s);
    var cursor := |before| + |insert| - offsetFromEnd;
    s.(text := before + insert + AfterSelection(s), selection := Selection(cursor, cursor), mentioning := None)
  }

  /** The index after the last newline, or 0. */
  function LineStart(s: string): (r: nat)
    ensures r <= |s|
  {
    if s == "" then 0 else if s[|s| - 1] == '\n' then |s| else LineStart(s[..|s| - 1])
  }

  function InsertAtLineStart(s: Editor, prefix: string): Editor {
    var lineStart := LineStart(Before(s));
    var next := Slice(s.text, 0, lineStart) + prefix + Slice(s.text, lineStart, |s.text|);
    var cursor := s.selection.end + |prefix|;
    s.(text := next, selection := Selection(cursor, cursor), mentioning := None)
  }

  function Restore(s: Editor, snap: Snapshot): Editor {
    Editor(snap.text, snap.selection, snap.markers, None)
  }

  /** The hook: every handler writes all the state it owns before it returns. */
  class MentionInput {
    var text: string
    var selection: Selection
    var markers: seq<Marker>
    var mentioning: Option<Token>

    ghost function Model(): Editor
      reads this
    {
      Editor(text, selection, markers, mentioning)
    }

    constructor ()
      ensures Model() == EMPTY
    {
      text, selection, markers, mentioning := "", Selection(0, 0), [], None;
    }

    method RecomputeMentioning(nextText: string, cursor: int)
      modifies this`mentioning
      ensures mentioning == OpenToken(nextText, cursor)
    {
      mentioning := TokenAtCursor(nextText, cursor);
    }

    method OnChangeText(next: string)
      modifies this
      ensures Model() == ChangeText(old(Model()), next)
    {
      text := next;
      RecomputeMentioning(next, selection.end);
    }

    method OnSelectionChange(sel: Selection)
      modifies this
      ensures Model() == ChangeSelection(old(Model()), sel)
    {
      selection := sel;
      RecomputeMentioning(text, sel.end);
    }

    method OnAtButtonPress()
      modifies this
      ensures Model() == PressAt(old(Model()))
    {
      var before := Slice(text, 0, selection.start);
      var after := Slice(text, selection.end, |text|);
      var needsPad := |before| > 0 && !IsSpace(before[|before| - 1]);
      var inserted := if needsPad then " @" else "@";
      var cursor := |before| + |inserted|;
      text := before + inserted + after;
      selection := Selection(cursor, cursor);
      RecomputeMentioning(text, cursor);
    }

    /** `shown` is the open mention of the render the handler belongs to. */
    method OnSelectMention(shown: Option<Token>, m: Marker)
      modifies this
      ensures Model() == PickShown(old(Model()), shown, m)
    {
      if shown.None? { return; }
      var (newText, cursor) := InsertMention(text, shown.value.start, |shown.value.query|, m);
      text := newText;
      selection := Selection(cursor, cursor);
      markers := markers + [m];
      mentioning := None;
    }

    method InsertTextAtCursor(insert: string, offsetFromEnd: int)
      modifies this
      ensures Model() == InsertAtCursor(old(Model()), insert, offsetFromEnd)
    {
      var before := Slice(text, 0, selection.start);
      var after := Slice(text, selection.end, |text|);
      var cursor := |before| + |insert| - offsetFromEnd;
      text := before + insert + after;
      selection := Selection(cursor, cursor);
      mentioning := None;
    }

    method InsertTextAtLineStart(prefix: string)
      modifies this
      ensures Model() == InsertAtLineStart(old(Model()), prefix)
    {
      var lineStart := LineStart(Slice(text, 0, selection.start));
      var cursor := selection.end + |prefix|;
      text := Slice(text, 0, lineStart) + prefix + Slice(text, lineStart, |text|);
      selection := Selection(cursor, cursor);
      mentioning := None;
    }

    method SerializeText() returns (r: string)
      ensures r == Serialize(text, markers)
    {
      r := SerializeMentions(text, markers);
    }

    method RestoreSnapshot(snap: Snapshot)
      modifies this
      ensures Model() == Restore(old(Model()), snap)
    {
      text, markers, selection, mentioning := snap.text, snap.markers, snap.selection, None;
    }

    method Reset()
      modifies this
      ensures Model() == EMPTY
    {
      text, markers, selection, mentioning := "", [], Selection(0, 0), None;
    }
  }

  // ----- the open mention over every run ---------------------------------------------

  datatype Event =
    | Typed(next: string)
    | Moved(sel: Selection)
    | AtPressed
    | Picked(m: Marker)
    | PickedLate(shown: Option<Token>, m: Marker)
    | InsertedAtCursor(insert: string, offsetFromEnd: int)
    | InsertedAtLineStart(prefix: string)
    | Restored(snap: Snapshot)
    | Cleared

  function Apply(s: Editor, ev: Event): Editor {
    match ev
    case Typed(next) => ChangeText(s, next)
    case Moved(sel) => ChangeSelection(s, sel)
    case AtPressed => PressAt(s)
    case Picked(m) => SelectMention(s, m)
    case PickedLate(shown, m) => PickShown(s, shown, m)
    case InsertedAtCursor(insert, offset) => InsertAtCursor(s, insert, offset)
    case InsertedAtLineStart(prefix) => InsertAtLineStart(s, prefix)
    case Restored(snap) => Restore(s, snap)
    case Cleared => EMPTY
  }

  function Run(events: seq<Event>): Editor {
    if events == [] then EMPTY else Apply(Run(events[..|events| - 1]), events[|events| - 1])
  }

  ghost predicate MentionIsCurrent(s: Editor) {
    s.mentioning.None? || s.mentioning == OpenToken(s.text, s.selection.end)
  }

  ghost predicate ValidSelection(s: Editor) {
    0 <= s.selection.start <= s.selection.end <= |s.text|
  }

  /** However the handlers are interleaved, an open mention is the token at the caret. */
  lemma MentionStaysCurrent(events: seq<Event>)
    ensures MentionIsCurrent(Run(events))
  {
  }

  /** Picking a mention replaces exactly the token that ends at the caret. */
  lemma PickReplacesToken(s: Editor, m: Marker)
    requires MentionIsCurrent(s) && s.mentioning.Some?
    ensures var t, caret := s.mentioning.value, s.selection.end;
      && t.start < caret <= |s.text|
      && s.text == s.text[..t.start] + ("@" + t.query) + s.text[caret..]
      && SelectMention(s, m).text == s.text[..t.start] + (MentionRun(m) + " ") + s.text[caret..]
      && SelectMention(s, m).selection.end == t.start + |MentionRun(m)| + 1
      && SelectMention(s, m).markers == s.markers + [m]
  {
    var t, caret := s.mentioning.value, s.selection.end;
    assert s.text[t.start..caret] == "@" + t.query;
    assert t.start + 1 + |t.query| == caret;
  }

  /** The token shown starts and ends where the open mention does, or both are absent. */
  predicate ShowsPresent(s: Editor, shown: Option<Token>) {
    if s.mentioning.None? || shown.None? then s.mentioning.None? && shown.None?
    else
      && shown.value.start == s.mentioning.value.start
      && Min(shown.value.start + 1 + |shown.value.query|, |s.text|) == s.selection.end
  }

  /** Restoring a snapshot, whatever came between, brings back text, markers and selection and closes the
      bar; clearing leaves an empty composer. */
  lemma RestoreBringsBack(s: Editor, between: seq<Event>)
    ensures var snap := Snapshot(s.text, s.markers, s.selection);
      && Restore(Run(between), snap) == s.(mentioning := None)
      && Apply(Run(between), Restored(snap)) == s.(mentioning := None)
    ensures Apply(s, Cleared) == Editor("", Selection(0, 0), [], None)
  {
  }

  /** A pick from an earlier render does what an up-to-date one does exactly when that render showed an
      open mention that starts where the present one does and ends where it ends, or neither is open. */
  lemma LatePickIsRightExactly(s: Editor, shown: Option<Token>, m: Marker)
    requires MentionIsCurrent(s)
    ensures PickShown(s, shown, m) == SelectMention(s, m) <==> ShowsPresent(s, shown)
  {
    if s.mentioning.Some? && shown.Some? {
      var t, u, caret := s.mentioning.value, shown.value, s.selection.end;
      var insert := MentionRun(m) + " ";
      PickReplacesToken(s, m);
      var late := PickShown(s, shown, m);
      var from, to := Min(u.start, |s.text|), Min(u.start + 1 + |u.query|, |s.text|);
      assert late.text == s.text[..from] + insert + s.text[to..] && late.selection.end == from + |insert|;
      assert |late.text| == from + |insert| + |s.text| - to;
    }
  }

  /** What was typed after the render stays behind the mention. */
  lemma LatePickLeavesTyped(s: Editor, shown: Token, typed: string, m: Marker)
    requires MentionIsCurrent(s) && s.mentioning == Some(Token(shown.start, shown.query + typed))
    ensures var caret := s.selection.end;
      && shown.start <= caret <= |s.text|
      && PickShown(s, Some(shown), m).text == s.text[..shown.start] + (MentionRun(m) + " ") + typed + s.text[caret..]
  {
    var caret, insert := s.selection.end, MentionRun(m) + " ";
    PickReplacesToken(s, m);
    assert s.text[shown.start..caret] == "@" + (shown.query + typed);
    TypedRemains(s.text, shown.start, shown.query, typed, caret);
    InsertedAt(s.text, shown.start, |shown.query|, m);
    Associates(s.text[..shown.start] + insert, typed, s.text[caret..]);
  }

  lemma InsertedAt(text: string, start: nat, length: nat, m: Marker)
    requires start + 1 + length <= |text|
    ensures InsertMention(text, start, length, m).0
         == text[..start] + (MentionRun(m) + " ") + text[start + 1 + length..]
  {
  }

  lemma TypedRemains(text: string, start: nat, query: string, typed: string, caret: nat)
    requires start <= caret <= |text| && text[start..caret] == "@" + (query + typed)
    ensures start + 1 + |query| <= caret && text[start + 1 + |query|..] == typed + text[caret..]
  {
    var from := start + 1 + |query|;
    assert |text[start..caret]| == 1 + |query| + |typed|;
    assert text[from..caret] == text[start..caret][1 + |query|..] == typed;
    assert text[from..] == text[from..caret] + text[caret..];
  }

  lemma AtOpens(query: string)
    requires Spaceless(query) && '@' !in query
    ensures OpenToken("@" + query, 1 + |query|) == Some(Token(0, query))
  {
    assert ("@" + query)[1..] == query;
    TokenIsUnique("@" + query, 1 + |query|, Token(0, query));
  }

  const KEYS_A: seq<Event> := [Typed("@a"), Moved(Selection(2, 2))]

  const KEYS_AB: seq<Event> := KEYS_A + [Typed("@ab")] + [Moved(Selection(3, 3))]

  lemma RunSnoc(events: seq<Event>, ev: Event)
    ensures Run(events + [ev]) == Apply(Run(events), ev)
  {
    assert (events + [ev])[..|events|] == events;
  }

  lemma KeysAreSeen()
    ensures Run(KEYS_A).mentioning == Some(Token(0, "a"))
    ensures var s := Run(KEYS_AB);
      s.text == "@ab" && s.selection == Selection(3, 3) && s.mentioning == Some(Token(0, "ab"))
  {
    assert KEYS_A == [Typed("@a")] + [Moved(Selection(2, 2))] && [] + [Typed("@a")] == [Typed("@a")];
    RunSnoc([], Typed("@a"));
    RunSnoc([Typed("@a")], Moved(Selection(2, 2)));
    RunSnoc(KEYS_A, Typed("@ab"));
    RunSnoc(KEYS_A + [Typed("@ab")], Moved(Selection(3, 3)));
    assert Spaceless("a") && Spaceless("ab") by {
      assert !IsSpace('a') && !IsSpace('b');
      assert forall c :: c in ['a'] || c in ['a', 'b'] ==> c == 'a' || c == 'b';
      assert "a" == ['a'] && "ab" == ['a', 'b'];
    }
    assert "a" + "b" == "ab" && "@" + "a" == "@a" && "@" + "ab" == "@ab";
    AtOpens("a");
    AtOpens("ab");
  }

  /** The handlers reach it: `@a` is shown, `b` is typed, and a pick before the next render keeps the `b`. */
  lemma LatePickIsReached(m: Marker)
    ensures var late := Run(KEYS_AB + [PickedLate(Run(KEYS_A).mentioning, m)]);
      late.text == MentionRun(m) + " " + "b" && late != Run(KEYS_AB + [Picked(m)])
  {
    RunSnoc(KEYS_AB, PickedLate(Run(KEYS_A).mentioning, m));
    RunSnoc(KEYS_AB, Picked(m));
    KeysAreSeen();
    assert "a" + "b" == "ab";
    LatePickLeavesTyped(Run(KEYS_AB), Token(0, "a"), "b", m);
    LatePickIsRightExactly(Run(KEYS_AB), Some(Token(0, "a")), m);
  }

  /** The `@` button opens an empty query at the caret, wherever the selection is. */
  lemma AtButtonOpensEmptyQuery(s: Editor)
    ensures var next := PressAt(s);
      && next.selection.start == next.selection.end
      && next.mentioning == Some(Token(next.selection.end - 1, ""))
  {
    var next := PressAt(s);
    var cursor := next.selection.end;
    var before := Before(s);
    assert cursor >= 1 && next.text[cursor - 1] == '@';
    assert cursor >= 2 ==> IsSpace(next.text[cursor - 2]);
    TokenIsUnique(next.text, cursor, Token(cursor - 1, ""));
  }

  /** The `@` button replaces the selection by the `@`, with a space in front of it exactly when it would
      stand right behind something else; the rest of the text and the markers stay. */
  lemma AtButtonInsertsAt(s: Editor)
    requires ValidSelection(s)
    ensures var next, from := PressAt(s), s.selection.start;
      var pad := if from > 0 && !IsSpace(s.text[from - 1]) then " " else "";
      && next.text == s.text[..from] + pad + "@" + s.text[s.selection.end..]
      && next.selection == Selection(from + |pad| + 1, from + |pad| + 1)
      && next.markers == s.markers
  {
    var from := s.selection.start;
    assert Before(s) == s.text[..from] && AfterSelection(s) == s.text[s.selection.end..];
    Associates(s.text[..from], " ", "@");
    assert " " + "@" == " @" && s.text[..from] + "" == s.text[..from];
  }

  /** The two native events of one keystroke may arrive in either order. */
  lemma KeystrokeOrderIsIrrelevant(s: Editor, next: string, sel: Selection)
    ensures ChangeSelection(ChangeText(s, next), sel) == ChangeText(ChangeSelection(s, sel), next)
  {
  }

  lemma {:induction false} LineStartMeaning(s: string)
    ensures LineStart(s) > 0 ==> s[LineStart(s) - 1] == '\n'
    ensures forall k :: LineStart(s) <= k < |s| ==> s[k] != '\n'
  {
    if s != "" && s[|s| - 1] != '\n' {
      LineStartMeaning(s[..|s| - 1]);
    }
  }

  /** A line prefix goes where the caret's line starts, and the caret keeps its place: what
      stands before it in its line and after it is as before. */
  lemma LinePrefixKeepsCaret(s: Editor, prefix: string)
    requires ValidSelection(s)
    ensures var next, at := InsertAtLineStart(s, prefix), LineStart(Before(s));
      && at <= s.selection.start
      && (at > 0 ==> s.text[at - 1] == '\n') && (forall k :: at <= k < s.selection.start ==> s.text[k] != '\n')
      && next.text == s.text[..at] + prefix + s.text[at..]
      && |prefix| <= next.selection.end <= |next.text|
      && next.text[..next.selection.end] == s.text[..at] + prefix + s.text[at..s.selection.end]
      && next.text[next.selection.end..] == s.text[s.selection.end..]
      && next.selection.start == next.selection.end && next.markers == s.markers && next.mentioning == None
  {
    LineStartMeaning(Before(s));
    var at := LineStart(Before(s));
    assert Before(s) == s.text[..s.selection.start];
    var next := InsertAtLineStart(s, prefix);
    assert next.text == s.text[..at] + prefix + s.text[at..];
    assert s.text[at..] == s.text[at..s.selection.end] + s.text[s.selection.end..];
  }

  /** An insertion replaces the selection, and leaves the caret the given distance from its end. */
  lemma InsertionReplacesSelection(s: Editor, insert: string, offset: nat)
    requires ValidSelection(s) && offset <= |insert|
    ensures var next := InsertAtCursor(s, insert, offset);
      && next.text == s.text[..s.selection.start] + insert + s.text[s.selection.end..]
      && next.selection.start == next.selection.end <= |next.text|
      && next.text[next.selection.end..] == insert[|insert| - offset..] + s.text[s.selection.end..]
      && next.markers == s.markers && next.mentioning == None
  {
    var next := InsertAtCursor(s, insert, offset);
    assert Before(s) == s.text[..s.selection.start] && AfterSelection(s) == s.text[s.selection.end..];
    assert insert == insert[..|insert| - offset] + insert[|insert| - offset..];
  }
}
