/** Texts with mentions in them: when serializing links them, and to whom. */
module MentionDocuments {
  import opened Prelude
  import opened MentionText
  import opened MentionTheorems

  /** A stretch of text followed by a mention. */
  datatype Segment = Segment(text: string, m: Marker)

  function Encode(segs: seq<Segment>, tail: string): string {
    if segs == [] then tail else segs[0].text + MentionRun(segs[0].m) + Encode(segs[1..], tail)
  }

  function Marks(segs: seq<Segment>): seq<Marker> {
    if segs == [] then [] else [segs[0].m] + Marks(segs[1..])
  }

  ghost predicate CleanSegment(g: Segment) {
    SentinelFree(g.text) && SentinelFree(g.m.name)
  }

  /** Sentinels occur only in front of mentions. */
  ghost predicate CleanDoc(segs: seq<Segment>, tail: string) {
    SentinelFree(tail) && forall g :: g in segs ==> CleanSegment(g)
  }

  /** A word that stands in front of `s` ends there. */
  predicate EndsWord(s: string) {
    s == "" || IsSpace(s[0])
  }

  /** Every name is one word, and its word ends where the name ends. */
  ghost predicate WellSpaced(segs: seq<Segment>, tail: string) {
    segs == [] ||
    (Spaceless(segs[0].m.name) && EndsWord(Encode(segs[1..], tail)) && WellSpaced(segs[1..], tail))
  }

  function FirstWord(s: string): string {
    s[..WordEnd(s, 0)]
  }

  /** The markers' names are, in order, the words that follow the mentions' `@`. */
  predicate WordsMatch(segs: seq<Segment>, tail: string, markers: seq<Marker>) {
    if segs == [] then markers == []
    else
      && markers != [] && markers[0].name == FirstWord(segs[0].m.name + Encode(segs[1..], tail))
      && WordsMatch(segs[1..], tail, markers[1..])
  }

  /** The markers name the mentions, in text order. */
  predicate NamesMatch(segs: seq<Segment>, markers: seq<Marker>) {
    if segs == [] then markers == []
    else markers != [] && markers[0].name == segs[0].m.name && NamesMatch(segs[1..], markers[1..])
  }

  /** The document with its mentions linked to `markers`. */
  function Linked(segs: seq<Segment>, markers: seq<Marker>, tail: string): seq<Piece>
    requires NamesMatch(segs, markers)
  {
    if segs == [] then [Plain(tail)]
    else [Plain(segs[0].text), Link(markers[0])] + Linked(segs[1..], markers[1..], tail)
  }

  // ----- one mention ---------------------------------------------------------------------

  lemma {:induction false} NextSentinelAt(s: string, i: nat, at: nat)
    requires i <= at <= |s| && (forall k :: i <= k < at ==> s[k] != SENTINEL) && (at < |s| ==> s[at] == SENTINEL)
    ensures NextSentinel(s, i) == at
    decreases at - i
  {
    if i < at {
      NextSentinelAt(s, i + 1, at);
    }
  }

  lemma SentinelAfter(text: string, i: nat, at: nat)
    requires i <= at < |text| && SentinelFree(text[i..at]) && text[at] == SENTINEL
    ensures NextSentinel(text, i) == at
  {
    forall k | i <= k < at
      ensures text[k] != SENTINEL
    {
      assert text[k] == text[i..at][k - i];
    }
    NextSentinelAt(text, i, at);
  }

  /** `text` holds `g` from `cursor` up to `next`. */
  ghost predicate Holds(text: string, cursor: nat, g: Segment, next: nat) {
    var at := cursor + |g.text|;
    && next == at + 2 + |g.m.name| && next <= |text|
    && text[cursor..at] == g.text && text[at] == SENTINEL && text[at + 1] == '@'
    && text[at + 2..next] == g.m.name
  }

  lemma Decompose(text: string, cursor: nat, g: Segment, rest: string, next: nat)
    requires cursor <= |text| && text[cursor..] == g.text + MentionRun(g.m) + rest
    requires next == cursor + |g.text| + 2 + |g.m.name|
    ensures Holds(text, cursor, g, next) && text[next..] == rest
  {
    var s := g.text + MentionRun(g.m) + rest;
    var at := |g.text|;
    var end := next - cursor;
    assert s[..at] == g.text && s[at] == SENTINEL && s[at + 1] == '@' && s[at + 2..end] == g.m.name && s[end..] == rest;
    assert text[cursor..cursor + at] == s[..at];
    assert text[cursor + at] == s[at] && text[cursor + at + 1] == s[at + 1];
    assert text[cursor + at + 2..cursor + end] == s[at + 2..end];
    assert text[cursor + end..] == s[end..];
  }

  lemma {:induction false} WordEndSuffix(a: string, i: nat, b: string, j: nat)
    requires i <= |a| && j <= |b| && a[i..] == b[j..]
    ensures WordEnd(a, i) - i == WordEnd(b, j) - j
    decreases |a| - i
  {
    if i < |a| {
      assert a[i] == a[i..][0] == b[j..][0] == b[j];
      assert a[i + 1..] == a[i..][1..] && b[j + 1..] == b[j..][1..];
      WordEndSuffix(a, i + 1, b, j + 1);
    }
  }

  lemma {:induction false} WordEndAt(s: string, i: nat, end: nat)
    requires i <= end <= |s| && (forall k :: i <= k < end ==> !IsSpace(s[k])) && (end < |s| ==> IsSpace(s[end]))
    ensures WordEnd(s, i) == end
    decreases end - i
  {
    if i < end {
      WordEndAt(s, i + 1, end);
    }
  }

  /** The word that starts with a name is the first word of the name and what follows. */
  lemma WordRead(text: string, from: nat, name: string, next: nat)
    requires next == from + |name| && next <= |text| && text[from..next] == name
    ensures text[from..WordEnd(text, from)] == FirstWord(name + text[next..])
  {
    var s := name + text[next..];
    assert text[from..] == s && s[0..] == s;
    WordEndSuffix(text, from, s, 0);
    assert text[from..WordEnd(text, from)] == text[from..][..WordEnd(s, 0)];
  }

  /** Parsing reaches the mention, reads the word behind its `@`, and takes the first marker for it. */
  lemma ParseSegment(text: string, cursor: nat, g: Segment, next: nat, markers: seq<Marker>, from: nat)
    requires Holds(text, cursor, g, next) && SentinelFree(g.text) && from == cursor + |g.text| + 2
    ensures var end := WordEnd(text, from);
      Parse(text, cursor, markers) ==
        if markers == [] || markers[0].name != text[from..end] then None
        else Prepend([Plain(g.text), Link(markers[0])], Parse(text, end, markers[1..]))
  {
    assert NextSentinel(text, cursor) == from - 2 by { SentinelAfter(text, cursor, from - 2); }
    ParseLinks(text, cursor, markers);
  }

  /** The word read is the name exactly when the name is one word that ends where it ends. */
  lemma WordIsName(name: string, rest: string)
    ensures FirstWord(name + rest) == name <==> Spaceless(name) && EndsWord(rest)
  {
    var s := name + rest;
    var end := WordEnd(s, 0);
    WordEndIsFirst(s, 0);
    if end == |name| {
      assert s[..end] == name;
      forall c | c in name
        ensures !IsSpace(c)
      {
        var k :| 0 <= k < |name| && name[k] == c;
        assert s[k] == c;
      }
      assert rest != "" ==> s[end] == rest[0];
    }
    if Spaceless(name) && EndsWord(rest) {
      assert forall k :: 0 <= k < |name| ==> s[k] == name[k] && name[k] in name;
      assert rest != "" ==> s[|name|] == rest[0];
    }
  }

  lemma ParseTail(text: string, cursor: nat, tail: string, markers: seq<Marker>)
    requires cursor <= |text| && text[cursor..] == tail && SentinelFree(tail)
    ensures Parse(text, cursor, markers) == if markers == [] then Some([Plain(tail)]) else None
  {
    forall k | cursor <= k < |text|
      ensures text[k] != SENTINEL
    {
      assert text[k] == tail[k - cursor];
    }
    NextSentinelAt(text, cursor, |text|);
  }

  // ----- when a text is linked -----------------------------------------------------------

  /** Where in plain text parsing starts makes no difference to whether it succeeds. */
  lemma ParseFromLater(text: string, c: nat, d: nat, markers: seq<Marker>)
    requires c <= d <= |text| && SentinelFree(text[c..d])
    ensures Parse(text, c, markers).Some? <==> Parse(text, d, markers).Some?
  {
    var at := NextSentinel(text, d);
    NextSentinelIsFirst(text, d);
    forall k | c <= k < at
      ensures text[k] != SENTINEL
    {
      assert k < d ==> text[k] == text[c..d][k - c];
    }
    NextSentinelAt(text, c, at);
  }

  ghost predicate NamesClean(markers: seq<Marker>) {
    forall m :: m in markers ==> SentinelFree(m.name)
  }

  /** After the word of a mention, parsing goes on as it would after the mention. */
  lemma ParseAfterWord(text: string, from: nat, name: string, word: string, markers: seq<Marker>)
    requires SentinelFree(name) && SentinelFree(word)
    requires from + |name| <= |text| && text[from..from + |name|] == name
    requires from + |word| <= |text| && text[from..from + |word|] == word
    ensures Parse(text, from + |word|, markers).Some? <==> Parse(text, from + |name|, markers).Some?
  {
    var a, b := from + |word|, from + |name|;
    if a <= b {
      assert text[a..b] == name[|word|..];
      ParseFromLater(text, a, b, markers);
    } else {
      assert text[b..a] == word[|name|..];
      ParseFromLater(text, b, a, markers);
    }
  }

  lemma WordDecides(text: string, from: nat, name: string, next: nat, markers: seq<Marker>, parsed: bool)
    requires next == from + |name| && next <= |text| && text[from..next] == name
    requires SentinelFree(name) && NamesClean(markers)
    requires var end := WordEnd(text, from);
      parsed <==> markers != [] && markers[0].name == text[from..end] && Parse(text, end, markers[1..]).Some?
    ensures parsed <==>
      markers != [] && markers[0].name == FirstWord(name + text[next..]) && Parse(text, next, markers[1..]).Some?
  {
    var end := WordEnd(text, from);
    WordRead(text, from, name, next);
    if markers != [] && markers[0].name == text[from..end] {
      assert markers[0] in markers;
      ParseAfterWord(text, from, name, text[from..end], markers[1..]);
    }
  }

  lemma SegmentFits(text: string, cursor: nat, g: Segment, next: nat, markers: seq<Marker>)
    requires Holds(text, cursor, g, next) && CleanSegment(g) && NamesClean(markers)
    ensures Parse(text, cursor, markers).Some? <==>
      markers != [] && markers[0].name == FirstWord(g.m.name + text[next..]) && Parse(text, next, markers[1..]).Some?
  {
    var from := cursor + |g.text| + 2;
    ParseSegment(text, cursor, g, next, markers, from);
    WordDecides(text, from, g.m.name, next, markers, Parse(text, cursor, markers).Some?);
  }

  /** Parsing a document succeeds exactly when the markers name the words read. */
  lemma {:induction false} ParseFits(text: string, cursor: nat, segs: seq<Segment>, tail: string, markers: seq<Marker>)
    requires CleanDoc(segs, tail) && NamesClean(markers) && cursor <= |text| && text[cursor..] == Encode(segs, tail)
    ensures Parse(text, cursor, markers).Some? <==> WordsMatch(segs, tail, markers)
    decreases |segs|
  {
    if segs == [] {
      ParseTail(text, cursor, tail, markers);
    } else {
      var next := cursor + |segs[0].text| + 2 + |segs[0].m.name|;
      Decompose(text, cursor, segs[0], Encode(segs[1..], tail), next);
      assert CleanSegment(segs[0]);
      SegmentFits(text, cursor, segs[0], next, markers);
      if markers != [] {
        ParseFits(text, next, segs[1..], tail, markers[1..]);
      }
    }
  }

  lemma {:induction false} OwnWordsMatch(segs: seq<Segment>, tail: string)
    ensures WordsMatch(segs, tail, Marks(segs)) <==> WellSpaced(segs, tail)
  {
    if segs != [] {
      WordIsName(segs[0].m.name, Encode(segs[1..], tail));
      OwnWordsMatch(segs[1..], tail);
      assert Marks(segs)[1..] == Marks(segs[1..]);
    }
  }

  /** A link is longer than the `@` and name it stands for. */
  lemma {:induction false} LinksLengthen(p: seq<Piece>)
    ensures |Render(p)| >= |Shown(p)| && (Links(p) != [] ==> |Render(p)| > |Shown(p)|)
  {
    if p != [] {
      LinksLengthen(p[1..]);
      assert Links(p) == LinkOf(p[0]) + Links(p[1..]);
      assert |AsMarkdown(p[0])| >= |AsTyped(p[0])| && (p[0].Link? ==> |AsMarkdown(p[0])| > |AsTyped(p[0])|);
    }
  }

  lemma EncodeHasSentinel(segs: seq<Segment>, tail: string)
    requires segs != []
    ensures SENTINEL in Encode(segs, tail)
  {
    assert Encode(segs, tail)[|segs[0].text|] == SENTINEL;
  }

  lemma {:induction false} WordsMatchCounts(segs: seq<Segment>, tail: string, markers: seq<Marker>)
    requires WordsMatch(segs, tail, markers)
    ensures |markers| == |segs|
  {
    if segs != [] {
      WordsMatchCounts(segs[1..], tail, markers[1..]);
    }
  }

  /** The exact condition for linking, for every document and marker list: all markers are linked,
      in order, when their names are the words that follow the mentions' `@`; otherwise none is,
      and the text that results is another one. */
  lemma SerializeDocument(segs: seq<Segment>, tail: string, markers: seq<Marker>)
    requires CleanDoc(segs, tail) && segs != [] && forall m :: m in markers ==> CleanMarker(m)
    ensures var text := Encode(segs, tail); var out := Serialize(text, markers);
      && (WordsMatch(segs, tail, markers) ==>
        exists p :: out == Render(p) && Links(p) == markers && Shown(p) == Strip(text))
      && (out == Strip(text) <==> !WordsMatch(segs, tail, markers))
  {
    var text := Encode(segs, tail);
    EncodeHasSentinel(segs, tail);
    assert text[0..] == text;
    ParseFits(text, 0, segs, tail, markers);
    ParseMeaning(text, 0, markers);
    if WordsMatch(segs, tail, markers) {
      WordsMatchCounts(segs, tail, markers);
      var p := Parse(text, 0, markers).value;
      assert Links(p) == markers && Shown(p) == Strip(text);
      LinksLengthen(p);
    }
  }

  // ----- to whom it is linked --------------------------------------------------------------

  /** A name that is one word and ends where its word ends is the word read. */
  lemma ParseNamed(text: string, cursor: nat, g: Segment, next: nat, markers: seq<Marker>)
    requires Holds(text, cursor, g, next) && SentinelFree(g.text)
    requires Spaceless(g.m.name) && EndsWord(text[next..])
    ensures Parse(text, cursor, markers) ==
      if markers == [] || markers[0].name != g.m.name then None
      else Prepend([Plain(g.text), Link(markers[0])], Parse(text, next, markers[1..]))
  {
    var from := cursor + |g.text| + 2;
    var end := WordEnd(text, from);
    assert text[from..end] == g.m.name by {
      WordRead(text, from, g.m.name, next);
      WordIsName(g.m.name, text[next..]);
    }
    assert end == next;
    ParseSegment(text, cursor, g, next, markers, from);
  }

  /** In a well-spaced document the words read are the names, and the links stand for the mentions. */
  lemma {:induction false} ParseDocument(text: string, cursor: nat, segs: seq<Segment>, tail: string,
                                         markers: seq<Marker>)
    requires CleanDoc(segs, tail) && WellSpaced(segs, tail) && cursor <= |text| && text[cursor..] == Encode(segs, tail)
    ensures Parse(text, cursor, markers) ==
      if NamesMatch(segs, markers) then Some(Linked(segs, markers, tail)) else None
    decreases |segs|
  {
    if segs == [] {
      ParseTail(text, cursor, tail, markers);
    } else {
      var next := cursor + |segs[0].text| + 2 + |segs[0].m.name|;
      Decompose(text, cursor, segs[0], Encode(segs[1..], tail), next);
      assert CleanSegment(segs[0]);
      ParseNamed(text, cursor, segs[0], next, markers);
      if markers != [] && markers[0].name == segs[0].m.name {
        ParseDocument(text, next, segs[1..], tail, markers[1..]);
        PrependLinked(segs, markers, tail, Parse(text, next, markers[1..]));
      }
    }
  }

  lemma PrependLinked(segs: seq<Segment>, markers: seq<Marker>, tail: string, rest: Option<seq<Piece>>)
    requires segs != [] && markers != [] && markers[0].name == segs[0].m.name
    requires rest == if NamesMatch(segs[1..], markers[1..]) then Some(Linked(segs[1..], markers[1..], tail)) else None
    ensures Prepend([Plain(segs[0].text), Link(markers[0])], rest)
         == if NamesMatch(segs, markers) then Some(Linked(segs, markers, tail)) else None
  {
  }

  /** Only names are compared: a well-spaced document is linked to any markers that carry its
      names in text order, and to none otherwise. */
  lemma SerializeWellSpaced(segs: seq<Segment>, tail: string, markers: seq<Marker>)
    requires CleanDoc(segs, tail) && WellSpaced(segs, tail) && segs != []
    ensures Serialize(Encode(segs, tail), markers) ==
      if NamesMatch(segs, markers) then Render(Linked(segs, markers, tail)) else Strip(Encode(segs, tail))
  {
    var text := Encode(segs, tail);
    EncodeHasSentinel(segs, tail);
    assert text[0..] == text;
    ParseDocument(text, 0, segs, tail, markers);
  }

  lemma {:induction false} MarksMatch(segs: seq<Segment>)
    ensures NamesMatch(segs, Marks(segs))
  {
    if segs != [] {
      MarksMatch(segs[1..]);
    }
  }

  ghost predicate Uses(parsed: Option<seq<Piece>>, markers: seq<Marker>) {
    parsed.Some? ==> Links(parsed.value) == markers
  }

  lemma PrependUses(before: string, rest: Option<seq<Piece>>, markers: seq<Marker>)
    requires Uses(rest, markers)
    ensures Uses(Prepend([Plain(before)], rest), markers)
    ensures forall m :: Uses(Prepend([Plain(before), Link(m)], rest), [m] + markers)
  {
    if rest.Some? {
      GatherOne(Plain(before), LinkOf);
      GatherConcat([Plain(before)], rest.value, LinkOf);
      assert [] + markers == markers;
      forall m
        ensures Links([Plain(before), Link(m)] + rest.value) == [m] + markers
      {
        GatherTwo(Plain(before), Link(m), LinkOf);
        GatherConcat([Plain(before), Link(m)], rest.value, LinkOf);
      }
    }
  }

  /** A successful parse uses every marker, in order. */
  lemma {:induction false} ParseUsesAll(text: string, cursor: nat, markers: seq<Marker>)
    requires cursor <= |text|
    ensures Uses(Parse(text, cursor, markers), markers)
    decreases |text| - cursor
  {
    var at := NextSentinel(text, cursor);
    if at == |text| {
      GatherOne(Plain(text[cursor..]), LinkOf);
    } else if at + 1 == |text| || text[at + 1] != '@' {
      ParseUsesAll(text, at + 1, markers);
      PrependUses(text[cursor..at], Parse(text, at + 1, markers), markers);
      ParseSkips(text, cursor, markers);
    } else if markers != [] {
      var end := WordEnd(text, at + 2);
      ParseUsesAll(text, end, markers[1..]);
      PrependUses(text[cursor..at], Parse(text, end, markers[1..]), markers[1..]);
      assert [markers[0]] + markers[1..] == markers;
      ParseLinks(text, cursor, markers);
    }
  }

  lemma {:induction false} LinkedLinks(segs: seq<Segment>, markers: seq<Marker>, tail: string)
    requires NamesMatch(segs, markers)
    ensures Links(Linked(segs, markers, tail)) == markers
  {
    if segs == [] {
      GatherOne(Plain(tail), LinkOf);
    } else {
      var front := [Plain(segs[0].text), Link(markers[0])];
      LinkedLinks(segs[1..], markers[1..], tail);
      GatherTwo(front[0], front[1], LinkOf);
      GatherConcat(front, Linked(segs[1..], markers[1..], tail), LinkOf);
      assert [] + [markers[0]] + markers[1..] == markers;
    }
  }

  /** Every mention is linked to its own target exactly when the markers are the document's own,
      in text order, and every name is one word that ends where the name ends. */
  lemma OwnTargetsExactly(segs: seq<Segment>, tail: string, markers: seq<Marker>)
    requires CleanDoc(segs, tail)
    ensures NamesMatch(segs, Marks(segs))
    ensures Parse(Encode(segs, tail), 0, markers) == Some(Linked(segs, Marks(segs), tail))
      <==> markers == Marks(segs) && WellSpaced(segs, tail)
  {
    var text := Encode(segs, tail);
    assert text[0..] == text;
    MarksMatch(segs);
    if Parse(text, 0, markers) == Some(Linked(segs, Marks(segs), tail)) {
      ParseUsesAll(text, 0, markers);
      LinkedLinks(segs, Marks(segs), tail);
      MarksAreClean(segs);
      ParseFits(text, 0, segs, tail, markers);
      OwnWordsMatch(segs, tail);
    }
    if WellSpaced(segs, tail) {
      ParseDocument(text, 0, segs, tail, Marks(segs));
    }
  }

  lemma {:induction false} MarksAreClean(segs: seq<Segment>)
    requires forall g :: g in segs ==> CleanSegment(g)
    ensures NamesClean(Marks(segs))
  {
    if segs != [] {
      assert segs[0] in segs;
      MarksAreClean(segs[1..]);
    }
  }

  /** A document's own markers are linked, each to its target, exactly when it is well spaced. */
  lemma OwnMarkersLinkExactlyWhenWellSpaced(segs: seq<Segment>, tail: string)
    requires CleanDoc(segs, tail) && segs != []
    ensures NamesMatch(segs, Marks(segs))
    ensures var text := Encode(segs, tail);
      Serialize(text, Marks(segs)) ==
        if WellSpaced(segs, tail) then Render(Linked(segs, Marks(segs), tail)) else Strip(text)
  {
    var text := Encode(segs, tail);
    EncodeHasSentinel(segs, tail);
    assert text[0..] == text;
    OwnTargetsExactly(segs, tail, Marks(segs));
    MarksAreClean(segs);
    ParseFits(text, 0, segs, tail, Marks(segs));
    OwnWordsMatch(segs, tail);
  }

  // ----- stray sentinels --------------------------------------------------------------------------

  /** `b` is what `text` holds from `c` on. */
  ghost predicate EndsWith(text: string, b: string, c: nat) {
    |text| == c + |b| && forall k :: 0 <= k < |b| ==> text[c + k] == b[k]
  }

  lemma EndSlice(text: string, b: string, c: nat, k: nat, l: nat)
    requires EndsWith(text, b, c) && k <= l <= |b|
    ensures text[c + k..c + l] == b[k..l]
  {
    forall x | 0 <= x < l - k
      ensures text[c + k..c + l][x] == b[k..l][x]
    {
      assert text[c + (k + x)] == b[k + x];
    }
  }

  lemma {:induction false} EndSentinel(text: string, b: string, c: nat, k: nat)
    requires EndsWith(text, b, c) && k <= |b|
    ensures NextSentinel(text, c + k) == c + NextSentinel(b, k)
    decreases |b| - k
  {
    if k < |b| {
      assert text[c + k] == b[k];
      EndSentinel(text, b, c, k + 1);
    }
  }

  lemma {:induction false} EndWord(text: string, b: string, c: nat, k: nat)
    requires EndsWith(text, b, c) && k <= |b|
    ensures WordEnd(text, c + k) == c + WordEnd(b, k)
    decreases |b| - k
  {
    if k < |b| {
      assert text[c + k] == b[k];
      EndWord(text, b, c, k + 1);
    }
  }

  /** What parsing makes of a mention whose word is `word`, behind the text `plain`. */
  function RunParsed(plain: string, word: string, markers: seq<Marker>, rest: Option<seq<Piece>>): Option<seq<Piece>> {
    if markers == [] || markers[0].name != word then None else Prepend([Plain(plain), Link(markers[0])], rest)
  }

  lemma ParseRunAt(text: string, cursor: nat, at: nat, end: nat, markers: seq<Marker>)
    requires cursor <= |text| && at == NextSentinel(text, cursor) && at + 1 < |text| && text[at + 1] == '@'
    requires end == WordEnd(text, at + 2)
    ensures Parse(text, cursor, markers) ==
      RunParsed(text[cursor..at], text[at + 2..end], markers,
                if markers == [] then None else Parse(text, end, markers[1..]))
  {
  }

  lemma ParseStrayAt(text: string, cursor: nat, at: nat, markers: seq<Marker>)
    requires cursor <= |text| && at == NextSentinel(text, cursor) && at < |text|
    requires at + 1 == |text| || text[at + 1] != '@'
    ensures Parse(text, cursor, markers) == Prepend([Plain(text[cursor..at])], Parse(text, at + 1, markers))
  {
  }

  /** What stands before the cursor makes no difference to parsing. */
  lemma {:induction false} ParseOfEnd(text: string, b: string, c: nat, k: nat, markers: seq<Marker>)
    requires EndsWith(text, b, c) && k <= |b|
    ensures Parse(text, c + k, markers) == Parse(b, k, markers)
    decreases |b| - k
  {
    var at := NextSentinel(b, k);
    EndSentinel(text, b, c, k);
    if at == |b| {
      PlainEnd(text, b, c, k, markers);
    } else if at + 1 == |b| || b[at + 1] != '@' {
      StrayOfEnd(text, b, c, k, at, markers);
      ParseOfEnd(text, b, c, at + 1, markers);
    } else {
      var end := WordEnd(b, at + 2);
      RunOfEnd(text, b, c, k, at, end, markers);
      if markers != [] {
        ParseOfEnd(text, b, c, end, markers[1..]);
      }
    }
  }

  lemma StrayOfEnd(text: string, b: string, c: nat, k: nat, at: nat, markers: seq<Marker>)
    requires EndsWith(text, b, c) && k <= |b| && at == NextSentinel(b, k) && at < |b|
    requires at + 1 == |b| || b[at + 1] != '@'
    ensures Parse(b, k, markers) == Prepend([Plain(b[k..at])], Parse(b, at + 1, markers))
    ensures Parse(text, c + k, markers) == Prepend([Plain(b[k..at])], Parse(text, c + at + 1, markers))
  {
    EndSentinel(text, b, c, k);
    EndSlice(text, b, c, k, at);
    assert at + 1 < |b| ==> text[c + (at + 1)] == b[at + 1];
    ParseStrayAt(b, k, at, markers);
    ParseStrayAt(text, c + k, c + at, markers);
  }

  lemma RunOfEnd(text: string, b: string, c: nat, k: nat, at: nat, end: nat, markers: seq<Marker>)
    requires EndsWith(text, b, c) && k <= |b| && at == NextSentinel(b, k) && at + 1 < |b| && b[at + 1] == '@'
    requires end == WordEnd(b, at + 2)
    ensures Parse(b, k, markers) ==
      RunParsed(b[k..at], b[at + 2..end], markers, if markers == [] then None else Parse(b, end, markers[1..]))
    ensures Parse(text, c + k, markers) ==
      RunParsed(b[k..at], b[at + 2..end], markers, if markers == [] then None else Parse(text, c + end, markers[1..]))
  {
    RunShape(text, b, c, k, at, end);
    ParseRunAt(b, k, at, end, markers);
    ParseRunAt(text, c + k, c + at, c + end, markers);
  }

  lemma RunShape(text: string, b: string, c: nat, k: nat, at: nat, end: nat)
    requires EndsWith(text, b, c) && k <= |b| && at == NextSentinel(b, k) && at + 1 < |b| && b[at + 1] == '@'
    requires end == WordEnd(b, at + 2)
    ensures c + at == NextSentinel(text, c + k) && c + at + 1 < |text| && text[c + at + 1] == '@'
    ensures c + end == WordEnd(text, c + at + 2)
    ensures text[c + k..c + at] == b[k..at] && text[c + at + 2..c + end] == b[at + 2..end]
  {
    EndSentinel(text, b, c, k);
    EndWord(text, b, c, at + 2);
    EndSlice(text, b, c, k, at);
    EndSlice(text, b, c, at + 2, end);
    assert text[c + (at + 1)] == b[at + 1];
  }

  lemma PlainEnd(text: string, b: string, c: nat, k: nat, markers: seq<Marker>)
    requires EndsWith(text, b, c) && k <= |b| && NextSentinel(b, k) == |b|
    ensures Parse(text, c + k, markers) == Parse(b, k, markers)
  {
    EndSentinel(text, b, c, k);
    EndSlice(text, b, c, k, |b|);
    assert text[c + k..] == text[c + k..c + |b|] && b[k..] == b[k..|b|];
  }

  /** A sentinel that no `@` follows is dropped, and nothing else changes. */
  lemma StraySentinelIsDropped(a: string, b: string, markers: seq<Marker>)
    requires SentinelFree(a) && (b == "" || b[0] != '@')
    ensures Serialize(a + [SENTINEL] + b, markers) == a + Serialize(b, markers)
  {
    var text := a + [SENTINEL] + b;
    assert text[|a|] == SENTINEL && text[|a| + 1..] == b && text[..|a|] == a;
    NextSentinelAt(text, 0, |a|);
    assert b != "" ==> text[|a| + 1] == b[0];
    ParseOfEnd(text, b, |a| + 1, 0, markers);
    assert Parse(text, 0, markers) == Prepend([Plain(a)], Parse(b, 0, markers));
    StripStray(a, b);
    if Parse(b, 0, markers).Some? {
      GatherConcat([Plain(a)], Parse(b, 0, markers).value, AsMarkdown);
      GatherOne(Plain(a), AsMarkdown);
    }
    if SENTINEL !in b {
      PlainSerializes(b, markers);
    }
  }

  lemma StripStray(a: string, b: string)
    requires SentinelFree(a)
    ensures Strip(a + [SENTINEL] + b) == a + Strip(b)
  {
    Associates(a, [SENTINEL], b);
    StripConcat(a, [SENTINEL] + b);
    StripClean(a);
    StripLeading(b);
  }

  lemma StripLeading(b: string)
    ensures Strip([SENTINEL] + b) == Strip(b)
  {
    assert ([SENTINEL] + b)[1..] == b;
  }

  lemma PlainSerializes(b: string, markers: seq<Marker>)
    requires SENTINEL !in b
    ensures Strip(b) == b
    ensures Parse(b, 0, markers) == if markers == [] then Some([Plain(b)]) else None
    ensures Render([Plain(b)]) == b
  {
    StripClean(b);
    NextSentinelAt(b, 0, |b|);
    assert b[0..] == b;
    GatherOne(Plain(b), AsMarkdown);
  }
}
