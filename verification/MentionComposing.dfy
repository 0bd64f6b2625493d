/** What a composed text is sent as: from left to right, and out of order. */
module MentionComposing {
  import opened Prelude
  import opened MentionText
  import opened MentionTheorems
  import opened MentionDocuments
  import opened MentionInput

  // ----- composing from left to right --------------------------------------------------

  datatype Action = Append(s: string) | Pick(m: Marker)

  function AppendText(s: Editor, added: string): Editor {
    var next := s.text + added;
    ChangeSelection(ChangeText(s, next), Selection(|next|, |next|))
  }

  function Act(s: Editor, a: Action): Editor {
    match a case Append(added) => AppendText(s, added) case Pick(m) => SelectMention(s, m)
  }

  function Compose(actions: seq<Action>): Editor {
    if actions == [] then EMPTY else Act(Compose(actions[..|actions| - 1]), actions[|actions| - 1])
  }

  /** What the user means: stretches of text with mentions between them. */
  datatype Doc = Doc(segs: seq<Segment>, tail: string)

  function ActOnDoc(d: Doc, a: Action): Doc {
    match a
    case Append(added) => d.(tail := d.tail + added)
    case Pick(m) =>
      match OpenToken(d.tail, |d.tail|)
      case None => d
      case Some(t) => Doc(d.segs + [Segment(d.tail[..t.start], m)], " ")
  }

  function Composed(actions: seq<Action>): Doc {
    if actions == [] then Doc([], "") else ActOnDoc(Composed(actions[..|actions| - 1]), actions[|actions| - 1])
  }

  ghost predicate CleanAction(a: Action) {
    match a
    case Append(added) => SentinelFree(added)
    case Pick(m) => CleanMarker(m)
  }

  predicate StartsWithSpace(s: string) {
    s != "" && IsSpace(s[0])
  }

  /** After every mention the text goes on with a space. */
  ghost predicate Separated(segs: seq<Segment>, tail: string) {
    && (forall i :: 0 < i < |segs| ==> StartsWithSpace(segs[i].text))
    && (segs != [] ==> StartsWithSpace(tail))
  }

  ghost predicate AllSpaceless(segs: seq<Segment>) {
    forall g :: g in segs ==> Spaceless(g.m.name)
  }

  lemma {:induction false} SeparatedIsWellSpaced(segs: seq<Segment>, tail: string)
    requires Separated(segs, tail)
    ensures WellSpaced(segs, tail) <==> AllSpaceless(segs)
  {
    if segs != [] {
      SeparatedIsWellSpaced(segs[1..], tail);
      assert segs[1..] != [] ==> segs[1..][0] == segs[1] && StartsWithSpace(segs[1].text);
      assert EndsWord(Encode(segs[1..], tail));
      assert AllSpaceless(segs) <==> Spaceless(segs[0].m.name) && AllSpaceless(segs[1..]) by {
        assert segs == [segs[0]] + segs[1..];
      }
    }
  }

  lemma {:induction false} AddSegment(segs: seq<Segment>, seg: Segment, tail: string)
    ensures Encode(segs + [seg], tail) == Encode(segs, seg.text + MentionRun(seg.m) + tail)
    ensures Marks(segs + [seg]) == Marks(segs) + [seg.m]
  {
    if segs == [] {
      assert segs + [seg] == [seg] && [seg][1..] == [];
    } else {
      assert (segs + [seg])[1..] == segs[1..] + [seg];
      AddSegment(segs[1..], seg, tail);
    }
  }

  lemma {:induction false} EncodeTail(segs: seq<Segment>, a: string, b: string)
    ensures Encode(segs, a + b) == Encode(segs, a) + b
  {
    if segs != [] {
      EncodeTail(segs[1..], a, b);
    }
  }

  /** The editor holds exactly the document `d`, with the caret at its end. */
  ghost predicate Represents(s: Editor, d: Doc) {
    && s.text == Encode(d.segs, d.tail)
    && s.selection.end == |s.text|
    && s.markers == Marks(d.segs)
    && s.mentioning == OpenToken(s.text, |s.text|)
    && CleanDoc(d.segs, d.tail) && Separated(d.segs, d.tail)
  }

  lemma AppendRepresents(s: Editor, d: Doc, added: string)
    requires Represents(s, d) && SentinelFree(added)
    ensures Represents(AppendText(s, added), ActOnDoc(d, Append(added)))
  {
    EncodeTail(d.segs, d.tail, added);
  }

  /** The token at the end of the text is the token at the end of the document's tail. */
  lemma TokenIsInDocTail(d: Doc)
    requires d.segs != [] ==> StartsWithSpace(d.tail)
    ensures var text := Encode(d.segs, d.tail);
      var front := Encode(d.segs, "");
      && text == front + d.tail
      && OpenToken(text, |text|) ==
        match OpenToken(d.tail, |d.tail|) case None => None case Some(t) => Some(Token(|front| + t.start, t.query))
  {
    EncodeSplit(d.segs, d.tail);
    TokenShifts(Encode(d.segs, ""), d.tail);
  }

  lemma EndsWithSpaceHasNoToken(s: string)
    requires s != "" && IsSpace(s[|s| - 1])
    ensures OpenToken(s, |s|) == None
  {
  }

  lemma PickRepresents(s: Editor, d: Doc, m: Marker)
    requires Represents(s, d) && CleanMarker(m)
    ensures Represents(SelectMention(s, m), ActOnDoc(d, Pick(m)))
  {
    var open := OpenToken(d.tail, |d.tail|);
    assert s.mentioning ==
      match open case None => None case Some(t) => Some(Token(|Encode(d.segs, "")| + t.start, t.query)) by {
      TokenIsInDocTail(d);
    }
    if open.None? {
      assert SelectMention(s, m) == s && ActOnDoc(d, Pick(m)) == d;
    } else {
      PickedRepresents(s, d, open.value, m);
    }
  }

  lemma PickedRepresents(s: Editor, d: Doc, t: Token, m: Marker)
    requires Represents(s, d) && CleanMarker(m)
    requires IsToken(d.tail, |d.tail|, t) && s.mentioning == Some(Token(|Encode(d.segs, "")| + t.start, t.query))
    ensures Represents(SelectMention(s, m), Doc(d.segs + [Segment(d.tail[..t.start], m)], " "))
  {
    var next, seg := SelectMention(s, m), Segment(d.tail[..t.start], m);
    assert next.text == Encode(d.segs + [seg], " ") && next.markers == Marks(d.segs + [seg]) by {
      PickedText(s, d, t, m);
      AddSegment(d.segs, seg, " ");
    }
    assert next.selection.end == |next.text| && IsSpace(next.text[|next.text| - 1]) by {
      PickReplacesToken(s, m);
    }
    assert OpenToken(next.text, |next.text|) == None by {
      EndsWithSpaceHasNoToken(next.text);
    }
    PickedIsSeparated(d, t, m);
  }

  lemma PickedIsSeparated(d: Doc, t: Token, m: Marker)
    requires CleanDoc(d.segs, d.tail) && Separated(d.segs, d.tail) && IsToken(d.tail, |d.tail|, t) && CleanMarker(m)
    ensures var segs := d.segs + [Segment(d.tail[..t.start], m)]; CleanDoc(segs, " ") && Separated(segs, " ")
  {
    var seg := Segment(d.tail[..t.start], m);
    assert CleanSegment(seg);
    assert d.segs != [] ==> t.start > 0;
  }

  lemma PickAtEnd(s: Editor, front: string, tail: string, t: Token, m: Marker)
    requires s.text == front + tail && IsToken(tail, |tail|, t)
    requires s.mentioning == Some(Token(|front| + t.start, t.query))
    ensures SelectMention(s, m).text == front + (tail[..t.start] + MentionRun(m) + " ")
  {
    assert s.text[..|front| + t.start] == front + tail[..t.start];
  }

  lemma PickedText(s: Editor, d: Doc, t: Token, m: Marker)
    requires s.text == Encode(d.segs, d.tail) && IsToken(d.tail, |d.tail|, t)
    requires s.mentioning == Some(Token(|Encode(d.segs, "")| + t.start, t.query))
    ensures SelectMention(s, m).text == Encode(d.segs, d.tail[..t.start] + MentionRun(m) + " ")
  {
    EncodeSplit(d.segs, d.tail);
    PickAtEnd(s, Encode(d.segs, ""), d.tail, t, m);
    EncodeSplit(d.segs, d.tail[..t.start] + MentionRun(m) + " ");
  }

  lemma EncodeSplit(segs: seq<Segment>, tail: string)
    ensures Encode(segs, tail) == Encode(segs, "") + tail
  {
    EncodeTail(segs, "", tail);
    assert "" + tail == tail;
  }

  lemma {:induction false} ComposeRepresents(actions: seq<Action>)
    requires forall a :: a in actions ==> CleanAction(a)
    ensures Represents(Compose(actions), Composed(actions))
  {
    if actions != [] {
      var front, a := actions[..|actions| - 1], actions[|actions| - 1];
      assert a in actions;
      ComposeRepresents(front);
      match a
      case Append(added) => AppendRepresents(Compose(front), Composed(front), added);
      case Pick(m) => PickRepresents(Compose(front), Composed(front), m);
    }
  }

  /** Composing from left to right, every picked mention is linked to its own target and the rest
      of the text is sent as typed, exactly when no picked name contains whitespace; otherwise
      nothing is linked. */
  lemma ComposedTextIsLinkedExactlyWhenSpaceless(actions: seq<Action>)
    requires forall a :: a in actions ==> CleanAction(a)
    ensures var s, d := Compose(actions), Composed(actions);
      && s.markers == Marks(d.segs) && NamesMatch(d.segs, s.markers)
      && Serialize(s.text, s.markers) ==
           (if AllSpaceless(d.segs) then Render(Linked(d.segs, s.markers, d.tail)) else Strip(s.text))
      && (d.segs != [] ==> (Serialize(s.text, s.markers) == Strip(s.text) <==> !AllSpaceless(d.segs)))
  {
    var s, d := Compose(actions), Composed(actions);
    ComposeRepresents(actions);
    MarksMatch(d.segs);
    if d.segs == [] {
      GatherOne(Plain(d.tail), AsMarkdown);
    } else {
      SeparatedIsWellSpaced(d.segs, d.tail);
      OwnMarkersLinkExactlyWhenWellSpaced(d.segs, d.tail);
      LinkedLinks(d.segs, s.markers, d.tail);
      LinkedShows(d.segs, d.tail);
      LinksLengthen(Linked(d.segs, s.markers, d.tail));
    }
  }

  /** Linked to its own markers, a document shows what its text shows without sentinels. */
  lemma {:induction false} LinkedShows(segs: seq<Segment>, tail: string)
    requires CleanDoc(segs, tail)
    ensures NamesMatch(segs, Marks(segs))
    ensures Shown(Linked(segs, Marks(segs), tail)) == Strip(Encode(segs, tail))
  {
    MarksMatch(segs);
    if segs == [] {
      GatherOne(Plain(tail), AsTyped);
      StripClean(tail);
    } else {
      var g, rest := segs[0], Encode(segs[1..], tail);
      var front := [Plain(g.text), Link(g.m)];
      LinkedShows(segs[1..], tail);
      assert CleanSegment(g);
      GatherTwo(front[0], front[1], AsTyped);
      GatherConcat(front, Linked(segs[1..], Marks(segs[1..]), tail), AsTyped);
      StripConcat(g.text + MentionRun(g.m), rest);
      StripConcat(g.text, MentionRun(g.m));
      StripClean(g.text);
      StripRun(g.m);
    }
  }

  lemma StripRun(m: Marker)
    requires SentinelFree(m.name)
    ensures Strip(MentionRun(m)) == "@" + m.name
  {
    var word := "@" + m.name;
    StripClean(word);
    assert MentionRun(m)[1..] == word;
  }

  /** Typing some text, an `@` at a word start and a query, and then picking: the query is
      gone, the text stays, and the mention is the document's last. */
  lemma TypedMention(d: Doc, plain: string, query: string, m: Marker)
    requires var t := d.tail + plain; t == "" || IsSpace(t[|t| - 1])
    requires Spaceless(query) && '@' !in query
    ensures ActOnDoc(ActOnDoc(d, Append(plain + "@" + query)), Pick(m))
         == Doc(d.segs + [Segment(d.tail + plain, m)], " ")
  {
    var kept := d.tail + plain;
    var tail := d.tail + (plain + "@" + query);
    assert tail == kept + "@" + query;
    assert tail[|kept| + 1..] == query && tail[..|kept|] == kept;
    TokenIsUnique(tail, |tail|, Token(|kept|, query));
  }

  function PickOne(m: Marker): seq<Action> {
    [Append("@"), Pick(m)]
  }

  lemma PickOneIsOneMention(m: Marker)
    ensures Composed(PickOne(m)) == Doc([Segment("", m)], " ")
  {
    var start := Doc([], "");
    assert Composed([]) == start && PickOne(m)[..1] == [Append("@")] && PickOne(m)[..1][..0] == [];
    assert Composed([Append("@")]) == ActOnDoc(start, Append("@"));
    assert "" + "@" + "" == "@";
    TypedMention(start, "", "", m);
    assert start.segs + [Segment(start.tail + "", m)] == [Segment("", m)];
  }

  lemma OneMention(m: Marker)
    ensures Encode([Segment("", m)], " ") == MentionRun(m) + " " && Marks([Segment("", m)]) == [m]
  {
    var segs := [Segment("", m)];
    assert segs[1..] == [];
    assert "" + MentionRun(m) + " " == MentionRun(m) + " ";
  }

  /** One pick of an ordinary name with a space in it, and the text falls back. */
  lemma NameWithSpaceFallsBack(m: Marker)
    requires CleanMarker(m) && m.name == "Ann Lee"
    ensures var s := Compose(PickOne(m));
      s.markers == [m] && Serialize(s.text, s.markers) == Strip(s.text) == "@" + m.name + " "
  {
    var s, d := Compose(PickOne(m)), Composed(PickOne(m));
    PickOneIsOneMention(m);
    ComposeRepresents(PickOne(m));
    OneMention(m);
    assert Strip(s.text) == "@" + m.name + " " by {
      StripRun(m);
      StripConcat(MentionRun(m), " ");
      StripClean(" ");
    }
    assert !AllSpaceless(d.segs) by {
      assert d.segs[0] in d.segs && m.name[3] == ' ' && m.name[3] in m.name;
    }
    ComposedTextIsLinkedExactlyWhenSpaceless(PickOne(m));
  }

  // ----- picking out of text order ---------------------------------------------------------

  /** Pick a mention, move the caret to the front, and pick another one there. */
  function PickTwoBackwards(first: Marker, second: Marker): seq<Event> {
    [AtPressed, Picked(second), Moved(Selection(0, 0)), AtPressed, Picked(first)]
  }

  lemma AtThenPick(s: Editor, m: Marker)
    requires s.selection == Selection(0, 0)
    ensures var next := SelectMention(PressAt(s), m);
      && next.text == MentionRun(m) + " " + s.text && next.markers == s.markers + [m]
  {
    var at := PressAt(s);
    AtButtonOpensEmptyQuery(s);
    assert at.text == "@" + s.text;
    PickReplacesToken(at, m);
    assert at.text[..0] == "" && at.text[1..] == s.text;
  }

  lemma RunAtPick(events: seq<Event>, m: Marker)
    ensures Run(events + [AtPressed, Picked(m)]) == SelectMention(PressAt(Run(events)), m)
  {
    RunSnoc(events, AtPressed);
    RunSnoc(events + [AtPressed], Picked(m));
    assert events + [AtPressed] + [Picked(m)] == events + [AtPressed, Picked(m)];
  }

  /** The run of the five events, handler by handler. */
  lemma BackwardsRun(first: Marker, second: Marker)
    ensures var mid := SelectMention(PressAt(EMPTY), second);
      Run(PickTwoBackwards(first, second)) == SelectMention(PressAt(ChangeSelection(mid, Selection(0, 0))), first)
  {
    var start: seq<Event> := [];
    var once := start + [AtPressed, Picked(second)];
    var moved := once + [Moved(Selection(0, 0))];
    RunAtPick(start, second);
    RunSnoc(once, Moved(Selection(0, 0)));
    RunAtPick(moved, first);
    assert moved + [AtPressed, Picked(first)] == PickTwoBackwards(first, second);
  }

  /** The handlers lead to markers in the order they were picked, not in text order. */
  lemma PickTwoBackwardsReaches(first: Marker, second: Marker)
    ensures var s := Run(PickTwoBackwards(first, second));
      s.text == Encode([Segment("", first), Segment(" ", second)], " ") && s.markers == [second, first]
  {
    var mid := SelectMention(PressAt(EMPTY), second);
    BackwardsRun(first, second);
    AtThenPick(EMPTY, second);
    AtThenPick(ChangeSelection(mid, Selection(0, 0)), first);
    TwoRuns(first, second);
    assert [second] + [first] == [second, first] && [] + [second] == [second];
  }

  lemma TwoRuns(first: Marker, second: Marker)
    ensures Encode([Segment("", first), Segment(" ", second)], " ")
         == MentionRun(first) + " " + (MentionRun(second) + " " + "")
  {
    var segs := [Segment("", first), Segment(" ", second)];
    assert segs[1..] == [segs[1]] && segs[1..][1..] == [];
    assert Encode(segs[1..], " ") == " " + MentionRun(second) + " ";
    assert Encode(segs, " ") == MentionRun(first) + Encode(segs[1..], " ");
  }

  lemma {:induction false} WordsOfPair(first: Segment, second: Segment, tail: string, a: Marker, b: Marker)
    requires WordsMatch([first, second], tail, [a, b]) && StartsWithSpace(second.text) && EndsWord(tail)
    ensures a.name == FirstWord(first.m.name) && b.name == FirstWord(second.m.name)
  {
    var segs := [first, second];
    assert segs[1..] == [second] && segs[1..][1..] == [] && [a, b][1..] == [b];
    assert Encode([second], tail) == second.text + MentionRun(second.m) + tail;
    FirstWordStays(first.m.name, Encode([second], tail));
    FirstWordStays(second.m.name, tail);
  }

  lemma FirstWordStays(name: string, rest: string)
    requires EndsWord(rest)
    ensures FirstWord(name + rest) == FirstWord(name)
  {
    WordEndIsFirst(name, 0);
    WordEndAt(name + rest, 0, WordEnd(name, 0));
    assert (name + rest)[..WordEnd(name, 0)] == name[..WordEnd(name, 0)];
  }

  /** Picked out of text order, two different names lose both links. */
  lemma OutOfOrderPicksFallBack(first: Marker, second: Marker)
    requires CleanMarker(first) && CleanMarker(second) && first.name != second.name
    ensures var s := Run(PickTwoBackwards(first, second)); Serialize(s.text, s.markers) == Strip(s.text)
  {
    var segs := [Segment("", first), Segment(" ", second)];
    PickTwoBackwardsReaches(first, second);
    assert CleanDoc(segs, " ");
    if WordsMatch(segs, " ", [second, first]) {
      WordsOfPair(segs[0], segs[1], " ", second, first);
    }
    SerializeDocument(segs, " ", [second, first]);
  }

  lemma LinkedPair(first: Segment, second: Segment, a: Marker, b: Marker, tail: string)
    requires NamesMatch([first, second], [a, b])
    ensures Linked([first, second], [a, b], tail)
         == [Plain(first.text), Link(a), Plain(second.text), Link(b), Plain(tail)]
  {
    assert [first, second][1..] == [second] && [a, b][1..] == [b] && [second][1..] == [] && [b][1..] == [];
    assert Linked([second], [b], tail) == [Plain(second.text), Link(b)] + Linked([], [], tail);
    assert Linked([first, second], [a, b], tail) == [Plain(first.text), Link(a)] + Linked([second], [b], tail);
  }

  lemma NamesakesMatch(first: Segment, second: Segment)
    requires first.m.name == second.m.name
    ensures NamesMatch([first, second], [second.m, first.m])
  {
    assert [first, second][1..] == [second] && [second.m, first.m][1..] == [first.m];
    assert [second][1..] == [] && [first.m][1..] == [];
    assert NamesMatch([second], [first.m]);
  }

  /** With equal names of one word the same mistake goes unnoticed: each mention is linked to the
      other's id. */
  lemma OutOfOrderNamesakesSwap(first: Marker, second: Marker)
    requires CleanMarker(first) && CleanMarker(second) && first.name == second.name
    ensures var s := Run(PickTwoBackwards(first, second));
      Serialize(s.text, s.markers) ==
        if Spaceless(first.name) then Render([Plain(""), Link(second), Plain(" "), Link(first), Plain(" ")])
        else Strip(s.text)
  {
    var a, b := Segment("", first), Segment(" ", second);
    PickTwoBackwardsReaches(first, second);
    assert CleanDoc([a, b], " ");
    if Spaceless(first.name) {
      SeparatedIsWellSpaced([a, b], " ");
      NamesakesMatch(a, b);
      LinkedPair(a, b, second, first, " ");
      SerializeWellSpaced([a, b], " ", [second, first]);
    } else {
      if WordsMatch([a, b], " ", [second, first]) {
        WordsOfPair(a, b, " ", second, first);
        NameIsOneWord(first.name);
      }
      SerializeDocument([a, b], " ", [second, first]);
    }
  }

  lemma NameIsOneWord(name: string)
    ensures FirstWord(name) == name ==> Spaceless(name)
  {
    WordIsName(name, "");
    assert name + "" == name;
  }
}
