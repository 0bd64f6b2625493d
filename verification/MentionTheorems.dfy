/** What serializing guarantees: no sentinel gets out, and links are all or nothing. */
module MentionTheorems {
  import opened Prelude
  import opened MentionText

  lemma {:induction false} StripConcat(a: string, b: string)
    ensures Strip(a + b) == Strip(a) + Strip(b)
  {
    if a == "" {
      assert a + b == b;
    } else {
      assert (a + b)[1..] == a[1..] + b;
      StripConcat(a[1..], b);
    }
  }

  lemma {:induction false} StripClean(s: string)
    ensures SentinelFree(Strip(s))
    ensures SentinelFree(s) ==> Strip(s) == s
  {
    if s != "" {
      StripClean(s[1..]);
    }
  }

  lemma CleanConcat(a: string, b: string)
    requires SentinelFree(a) && SentinelFree(b)
    ensures SentinelFree(a + b)
  {
  }

  lemma KindNameIsClean(k: MentionType)
    ensures SentinelFree(KindName(k))
  {
  }

  lemma RenderLinkIsClean(m: Marker)
    requires CleanMarker(m)
    ensures SentinelFree(RenderLink(m))
  {
    var caption := if m.kind.Issue? then m.name else "@" + m.name;
    KindNameIsClean(m.kind);
    CleanConcat("[", caption);
    assert SentinelFree("](mention://");
    CleanConcat("[" + caption, "](mention://");
    CleanConcat("[" + caption + "](mention://", KindName(m.kind));
    CleanConcat("[" + caption + "](mention://" + KindName(m.kind), "/");
    CleanConcat("[" + caption + "](mention://" + KindName(m.kind) + "/", m.id);
    CleanConcat("[" + caption + "](mention://" + KindName(m.kind) + "/" + m.id, ")");
  }

  /** What a parse means: every marker linked in order, nothing lost but the sentinels. */
  ghost predicate Means(parsed: Option<seq<Piece>>, markers: seq<Marker>, stripped: string) {
    match parsed
    case None => true
    case Some(p) => Links(p) == markers && Shown(p) == stripped && SentinelFree(Render(p))
  }

  lemma PrependMeans(front: seq<Piece>, rest: Option<seq<Piece>>, markers: seq<Marker>, stripped: string)
    requires Means(rest, markers, stripped) && SentinelFree(Render(front))
    ensures Means(Prepend(front, rest), Links(front) + markers, Shown(front) + stripped)
  {
    match rest
    case None =>
    case Some(p) =>
      GatherConcat(front, p, LinkOf);
      GatherConcat(front, p, AsTyped);
      GatherConcat(front, p, AsMarkdown);
  }

  lemma PlainMeans(s: string)
    ensures Links([Plain(s)]) == [] && Shown([Plain(s)]) == s && Render([Plain(s)]) == s
  {
    GatherOne(Plain(s), LinkOf);
    GatherOne(Plain(s), AsTyped);
    GatherOne(Plain(s), AsMarkdown);
  }

  lemma LinkMeans(s: string, m: Marker)
    requires SentinelFree(s) && CleanMarker(m)
    ensures Links([Plain(s), Link(m)]) == [m] && Shown([Plain(s), Link(m)]) == s + ("@" + m.name)
    ensures SentinelFree(Render([Plain(s), Link(m)]))
  {
    GatherTwo(Plain(s), Link(m), LinkOf);
    GatherTwo(Plain(s), Link(m), AsTyped);
    GatherTwo(Plain(s), Link(m), AsMarkdown);
    RenderLinkIsClean(m);
  }

  lemma BeforeSentinel(text: string, cursor: nat)
    requires cursor <= |text|
    ensures SentinelFree(text[cursor..NextSentinel(text, cursor)])
  {
    NextSentinelIsFirst(text, cursor);
  }

  lemma StripSkips(text: string, cursor: nat)
    requires cursor <= |text| && NextSentinel(text, cursor) < |text|
    ensures var at := NextSentinel(text, cursor); Strip(text[cursor..]) == text[cursor..at] + Strip(text[at + 1..])
  {
    var at := NextSentinel(text, cursor);
    NextSentinelIsFirst(text, cursor);
    BeforeSentinel(text, cursor);
    StripClean(text[cursor..at]);
    assert text[cursor..] == text[cursor..at] + text[at..];
    StripConcat(text[cursor..at], text[at..]);
    assert text[at..][1..] == text[at + 1..];
  }

  lemma StripWord(text: string, from: nat, end: nat)
    requires from <= end <= |text| && SentinelFree(text[from..end])
    ensures Strip(text[from..]) == text[from..end] + Strip(text[end..])
  {
    assert text[from..] == text[from..end] + text[end..];
    StripConcat(text[from..end], text[end..]);
    StripClean(text[from..end]);
  }

  lemma StripLinks(text: string, cursor: nat, m: Marker)
    requires cursor <= |text| && SentinelFree(m.name)
    requires var at := NextSentinel(text, cursor); at + 1 < |text| && text[at + 1] == '@'
    requires var at := NextSentinel(text, cursor); m.name == text[at + 2..WordEnd(text, at + 2)]
    ensures var at := NextSentinel(text, cursor);
      Strip(text[cursor..]) == text[cursor..at] + ("@" + m.name) + Strip(text[WordEnd(text, at + 2)..])
  {
    var at := NextSentinel(text, cursor);
    var end := WordEnd(text, at + 2);
    var word := "@" + m.name;
    assert text[at + 1..end] == word;
    StripWord(text, at + 1, end);
    StripSkips(text, cursor);
    assert text[cursor..at] + (word + Strip(text[end..])) == text[cursor..at] + word + Strip(text[end..]);
  }

  lemma EndMeaning(text: string, cursor: nat, markers: seq<Marker>)
    requires cursor <= |text| && NextSentinel(text, cursor) == |text|
    ensures Means(Parse(text, cursor, markers), markers, Strip(text[cursor..]))
  {
    var rest := text[cursor..];
    BeforeSentinel(text, cursor);
    StripClean(rest);
    PlainMeans(rest);
    assert Parse(text, cursor, markers) == if markers == [] then Some([Plain(rest)]) else None;
  }

  lemma SkipMeaning(text: string, cursor: nat, markers: seq<Marker>)
    requires cursor <= |text|
    requires var at := NextSentinel(text, cursor); at < |text| && (at + 1 == |text| || text[at + 1] != '@')
    requires var at := NextSentinel(text, cursor); Means(Parse(text, at + 1, markers), markers, Strip(text[at + 1..]))
    ensures Means(Parse(text, cursor, markers), markers, Strip(text[cursor..]))
  {
    var at := NextSentinel(text, cursor);
    ParseSkips(text, cursor, markers);
    StripSkips(text, cursor);
    BeforeSentinel(text, cursor);
    PlainMeans(text[cursor..at]);
    PrependMeans([Plain(text[cursor..at])], Parse(text, at + 1, markers), markers, Strip(text[at + 1..]));
    assert [] + markers == markers;
  }

  lemma LinkMeaning(text: string, cursor: nat, markers: seq<Marker>)
    requires cursor <= |text| && markers != [] && CleanMarker(markers[0])
    requires var at := NextSentinel(text, cursor); at + 1 < |text| && text[at + 1] == '@'
    requires var at := NextSentinel(text, cursor); markers[0].name == text[at + 2..WordEnd(text, at + 2)]
    requires var end := WordEnd(text, NextSentinel(text, cursor) + 2);
      Means(Parse(text, end, markers[1..]), markers[1..], Strip(text[end..]))
    ensures Means(Parse(text, cursor, markers), markers, Strip(text[cursor..]))
  {
    var at := NextSentinel(text, cursor);
    var end := WordEnd(text, at + 2);
    ParseLinks(text, cursor, markers);
    StripLinks(text, cursor, markers[0]);
    BeforeSentinel(text, cursor);
    LinkMeans(text[cursor..at], markers[0]);
    PrependMeans([Plain(text[cursor..at]), Link(markers[0])], Parse(text, end, markers[1..]),
                 markers[1..], Strip(text[end..]));
    assert [markers[0]] + markers[1..] == markers;
  }

  /** A successful parse uses every marker in order and loses nothing but the sentinels. */
  lemma {:induction false} ParseMeaning(text: string, cursor: nat, markers: seq<Marker>)
    requires cursor <= |text| && forall m :: m in markers ==> CleanMarker(m)
    ensures Means(Parse(text, cursor, markers), markers, Strip(text[cursor..]))
    decreases |text| - cursor
  {
    var at := NextSentinel(text, cursor);
    if at == |text| {
      EndMeaning(text, cursor, markers);
    } else if at + 1 == |text| || text[at + 1] != '@' {
      ParseMeaning(text, at + 1, markers);
      SkipMeaning(text, cursor, markers);
    } else {
      var end := WordEnd(text, at + 2);
      if markers != [] {
        assert markers[0] in markers;
        ParseMeaning(text, end, markers[1..]);
      }
      RunMeaning(text, cursor, markers, end);
    }
  }

  lemma RunMeaning(text: string, cursor: nat, markers: seq<Marker>, end: nat)
    requires cursor <= |text| && (markers != [] ==> CleanMarker(markers[0]))
    requires var at := NextSentinel(text, cursor);
      at + 1 < |text| && text[at + 1] == '@' && end == WordEnd(text, at + 2)
    requires markers != [] ==> Means(Parse(text, end, markers[1..]), markers[1..], Strip(text[end..]))
    ensures Means(Parse(text, cursor, markers), markers, Strip(text[cursor..]))
  {
    var at := NextSentinel(text, cursor);
    if markers != [] && markers[0].name == text[at + 2..end] {
      LinkMeaning(text, cursor, markers);
    } else {
      assert Parse(text, cursor, markers) == None by { ParseLinks(text, cursor, markers); }
    }
  }

  /** All or nothing: either the text with its sentinels deleted, or every marker linked in
      order, in which case showing each link as `@` plus its name gives that same stripped text. */
  lemma SerializeIsAllOrNothing(text: string, markers: seq<Marker>)
    requires forall m :: m in markers ==> CleanMarker(m)
    ensures SentinelFree(Serialize(text, markers))
    ensures Serialize(text, markers) == Strip(text)
      || exists p :: Serialize(text, markers) == Render(p) && Links(p) == markers && Shown(p) == Strip(text)
  {
    StripClean(text);
    ParseMeaning(text, 0, markers);
    assert text[0..] == text;
    match Parse(text, 0, markers)
    case None =>
    case Some(p) => assert Links(p) == markers && Shown(p) == Strip(text);
  }
}
