/** Mentions in plain text: finding the open `@` token, inserting a mention behind an
    invisible sentinel, and turning sentinel runs into links. */
module MentionText {
  import opened Prelude

  const SENTINEL: char := '\U{2063}'

  /** The characters matched by JavaScript's `\s`. */
  predicate IsSpace(c: char) {
    || c == ' ' || c == '\t' || c == '\n' || c == '\r' || c == '\U{000B}' || c == '\U{000C}'
    || c == '\U{00A0}' || c == '\U{1680}' || '\U{2000}' <= c <= '\U{200A}'
    || c == '\U{2028}' || c == '\U{2029}' || c == '\U{202F}' || c == '\U{205F}' || c == '\U{3000}' || c == '\U{FEFF}'
  }

  /** Whitespace by code point: the control characters 9 to 13, the space and the Unicode spaces, the two line
      separators and the byte order mark. */
  lemma SpacesByCodePoint(c: char)
    ensures IsSpace(c) <==>
      c as int in {9, 10, 11, 12, 13, 32, 0xA0, 0x1680, 0x2000, 0x2001, 0x2002, 0x2003, 0x2004, 0x2005, 0x2006, 0x2007,
                   0x2008, 0x2009, 0x200A, 0x2028, 0x2029, 0x202F, 0x205F, 0x3000, 0xFEFF}
  {
  }

  datatype MentionType = Member | Agent | Squad | All | Issue

  datatype Marker = Marker(kind: MentionType, id: string, name: string)

  ghost predicate SentinelFree(s: string) {
    SENTINEL !in s
  }

  ghost predicate Spaceless(s: string) {
    forall c :: c in s ==> !IsSpace(c)
  }

  ghost predicate CleanMarker(m: Marker) {
    SentinelFree(m.id) && SentinelFree(m.name)
  }

  // ----- the open token ---------------------------------------------------------

  datatype Token = Token(start: nat, query: string)

  /** `t` is an `@` at a word start with the query that runs from it to `cursor`. */
  ghost predicate IsToken(text: string, cursor: int, t: Token) {
    && t.start < cursor <= |text|
    && text[t.start] == '@'
    && t.query == text[t.start + 1..cursor]
    && Spaceless(t.query) && '@' !in t.query
    && (t.start == 0 || IsSpace(text[t.start - 1]))
  }

  function OpenToken(text: string, cursor: int): (r: Option<Token>)
    ensures r.Some? ==> IsToken(text, cursor, r.value)
    ensures r.None? ==> forall t :: !IsToken(text, cursor, t)
  {
    if cursor < 1 || cursor > |text| then None else ScanBack(text, cursor, cursor - 1)
  }

  /** Walks left from `i`; everything between `i` and `cursor` is neither `@` nor a space. */
  function ScanBack(text: string, cursor: int, i: int): (r: Option<Token>)
    requires -1 <= i < cursor <= |text|
    requires forall k :: i < k < cursor ==> text[k] != '@' && !IsSpace(text[k])
    ensures r.Some? ==> IsToken(text, cursor, r.value)
    ensures r.None? ==> forall t :: !IsToken(text, cursor, t)
    decreases i
  {
    if i < 0 then
      assert forall t: Token :: t.start < cursor ==> text[t.start] != '@';
      None
    else if text[i] == '@' then
      if i > 0 && !IsSpace(text[i - 1]) then
        assert forall t :: IsToken(text, cursor, t) ==> t.start == i by { OnlyTokenAt(text, cursor, i); }
        None
      else Some(Token(i, text[i + 1..cursor]))
    else if IsSpace(text[i]) then
      assert forall t :: IsToken(text, cursor, t) ==> t.start == i by { OnlyTokenAt(text, cursor, i); }
      None
    else ScanBack(text, cursor, i - 1)
  }

  /** A token cannot start left of an `@` or a space, nor right of the last one. */
  lemma OnlyTokenAt(text: string, cursor: int, i: nat)
    requires i < cursor <= |text| && (text[i] == '@' || IsSpace(text[i]))
    requires forall k :: i < k < cursor ==> text[k] != '@' && !IsSpace(text[k])
    ensures forall t :: IsToken(text, cursor, t) ==> t.start == i
  {
    forall t | IsToken(text, cursor, t)
      ensures t.start == i
    {
      QueryIsClean(text, cursor, t);
    }
  }

  lemma QueryIsClean(text: string, cursor: int, t: Token)
    requires IsToken(text, cursor, t)
    ensures forall k :: t.start < k < cursor ==> text[k] != '@' && !IsSpace(text[k])
  {
    forall k | t.start < k < cursor
      ensures text[k] != '@' && !IsSpace(text[k])
    {
      assert t.query[k - t.start - 1] == text[k];
    }
  }

  lemma TokenIsUnique(text: string, cursor: int, t: Token)
    requires IsToken(text, cursor, t)
    ensures OpenToken(text, cursor) == Some(t)
  {
    QueryIsClean(text, cursor, t);
    QueryIsClean(text, cursor, OpenToken(text, cursor).value);
  }

  /** The backward walk over the text, as a loop. */
  method TokenAtCursor(text: string, cursor: int) returns (r: Option<Token>)
    ensures r == OpenToken(text, cursor)
  {
    if cursor < 1 || cursor > |text| { return None; }
    var i := cursor - 1;
    while i >= 0
      invariant -1 <= i < cursor
      invariant forall k :: i < k < cursor ==> text[k] != '@' && !IsSpace(text[k])
      invariant OpenToken(text, cursor) == ScanBack(text, cursor, i)
    {
      if text[i] == '@' { break; }
      if IsSpace(text[i]) { return None; }
      i := i - 1;
    }
    if i < 0 || text[i] != '@' { return None; }
    if i > 0 && text[i - 1] == SENTINEL { return None; }
    if i > 0 && !IsSpace(text[i - 1]) { return None; }
    return Some(Token(i, text[i + 1..cursor]));
  }

  /** Text put in front does not disturb the token, if the word boundary is kept. */
  lemma TokenShifts(p: string, t: string)
    requires p == "" || (t != "" && IsSpace(t[0]))
    ensures OpenToken(p + t, |p + t|) ==
      match OpenToken(t, |t|) case None => None case Some(k) => Some(Token(|p| + k.start, k.query))
  {
    var s := p + t;
    match OpenToken(t, |t|)
    case Some(k) =>
      assert s[|p| + k.start + 1..] == t[k.start + 1..];
      TokenIsUnique(s, |s|, Token(|p| + k.start, k.query));
    case None =>
      if OpenToken(s, |s|).Some? {
        TokenIsInTail(p, t, OpenToken(s, |s|).value);
      }
  }

  lemma TokenIsInTail(p: string, t: string, k: Token)
    requires p == "" || (t != "" && IsSpace(t[0]))
    requires IsToken(p + t, |p + t|, k)
    ensures |p| <= k.start && IsToken(t, |t|, Token(k.start - |p|, k.query))
  {
    var s := p + t;
    QueryIsClean(s, |s|, k);
    assert p != "" ==> IsSpace(s[|p|]);
    assert |p| <= k.start;
    assert k.query == t[k.start - |p| + 1..];
  }

  // ----- inserting a mention -------------------------------------------------------

  /** No token up to the end starts in front of an `@` or a space. */
  lemma NoTokenAcross(text: string, at: nat)
    requires at < |text| && (text[at] == '@' || IsSpace(text[at]))
    ensures forall t :: IsToken(text, |text|, t) ==> t.start >= at
  {
    forall t | IsToken(text, |text|, t)
      ensures t.start >= at
    {
      StandsBehind(text, t.start, at);
    }
  }

  lemma StandsBehind(text: string, start: nat, at: nat)
    requires at < |text|
    ensures start < at ==> text[at] in text[start + 1..]
  {
    assert start < at ==> text[start + 1..][at - start - 1] == text[at];
  }

  /** An `@` within a word opens nothing. */
  lemma AtWithinWordOpensNothing(word: string, query: string)
    requires Spaceless(query) && '@' !in query && word != "" && Spaceless(word)
    ensures OpenToken(word + "@" + query, |word| + 1 + |query|) == None
  {
    var text := word + "@" + query;
    assert word[|word| - 1] in word && text[|word|] == '@' && text[|word| - 1] == word[|word| - 1];
    NoTokenAcross(text, |word|);
    forall k | |word| < k < |text|
      ensures text[k] != '@'
    {
      assert text[k] == query[k - |word| - 1] && query[k - |word| - 1] in query;
    }
  }

  /** An `@` behind a space opens the query up to the caret. */
  lemma AtWordStartOpens(front: string, query: string)
    requires Spaceless(query) && '@' !in query
    ensures OpenToken(front + " @" + query, |front| + 2 + |query|) == Some(Token(|front| + 1, query))
  {
    var text := front + " @" + query;
    assert text[|front| + 2..] == query && text[|front|] == ' ' && text[|front| + 1] == '@';
    TokenIsUnique(text, |text|, Token(|front| + 1, query));
  }

  /** A space closes it. */
  lemma SpaceCloses(front: string)
    ensures OpenToken(front + " ", |front| + 1) == None
  {
    var text := front + " ";
    assert text[|front|] == ' ';
    NoTokenAcross(text, |front|);
  }

  function SliceBound(n: nat, i: int): nat {
    if i < 0 then Max(n + i, 0) else Min(i, n)
  }

  /** JavaScript's `slice`: bounds are clamped, negative ones count from the end. */
  function Slice(s: string, a: int, b: int): string {
    var from, to := SliceBound(|s|, a), SliceBound(|s|, b);
    if from <= to then s[from..to] else ""
  }

  lemma Associates(a: string, b: string, c: string)
    ensures a + b + c == a + (b + c)
  {
  }

  /** Within the text it is the part between; a negative bound counts from the end; past the ends nothing more
      is taken. */
  lemma SliceMeaning(s: string, a: int, b: int)
    ensures 0 <= a <= b <= |s| ==> Slice(s, a, b) == s[a..b]
    ensures -|s| <= a < 0 ==> Slice(s, a, b) == Slice(s, |s| + a, b)
    ensures -|s| <= b < 0 ==> Slice(s, a, b) == Slice(s, a, |s| + b)
    ensures a < -|s| ==> Slice(s, a, b) == Slice(s, 0, b)
    ensures b < -|s| ==> Slice(s, a, b) == ""
    ensures b > |s| ==> Slice(s, a, b) == Slice(s, a, |s|)
    ensures a > |s| ==> Slice(s, a, b) == ""
    ensures 0 <= b < a ==> Slice(s, a, b) == ""
  {
  }

  function MentionRun(m: Marker): string {
    [SENTINEL, '@'] + m.name
  }

  /** The text and the caret after replacing `@<query>` by a mention and a space. */
  function InsertMention(text: string, start: int, queryLength: nat, m: Marker): (string, nat) {
    var before := Slice(text, 0, start);
    var after := Slice(text, start + 1 + queryLength, |text|);
    var insert := MentionRun(m) + " ";
    (before + insert + after, |before| + |insert|)
  }

  // ----- serializing ---------------------------------------------------------------

  /** What serializing makes of a text: pieces of plain text and links. */
  datatype Piece = Plain(s: string) | Link(m: Marker)

  function KindName(k: MentionType): string {
    match k
    case Member => "member"
    case Agent => "agent"
    case Squad => "squad"
    case All => "all"
    case Issue => "issue"
  }

  function RenderLink(m: Marker): string {
    var caption := if m.kind.Issue? then m.name else "@" + m.name;
    "[" + caption + "](mention://" + KindName(m.kind) + "/" + m.id + ")"
  }

  function Gather<T>(pieces: seq<Piece>, f: Piece -> seq<T>): seq<T> {
    if pieces == [] then [] else f(pieces[0]) + Gather(pieces[1..], f)
  }

  lemma {:induction false} GatherConcat<T>(a: seq<Piece>, b: seq<Piece>, f: Piece -> seq<T>)
    ensures Gather(a + b, f) == Gather(a, f) + Gather(b, f)
  {
    if a == [] {
      assert a + b == b;
    } else {
      assert (a + b)[1..] == a[1..] + b;
      GatherConcat(a[1..], b, f);
    }
  }

  function AsMarkdown(p: Piece): string {
    match p case Plain(s) => s case Link(m) => RenderLink(m)
  }

  function AsTyped(p: Piece): string {
    match p case Plain(s) => s case Link(m) => "@" + m.name
  }

  function LinkOf(p: Piece): seq<Marker> {
    match p case Plain(_) => [] case Link(m) => [m]
  }

  /** The markdown sent to the server. */
  function Render(pieces: seq<Piece>): string {
    Gather(pieces, AsMarkdown)
  }

  /** The same pieces with every link shown as `@` plus its name. */
  function Shown(pieces: seq<Piece>): string {
    Gather(pieces, AsTyped)
  }

  function Links(pieces: seq<Piece>): seq<Marker> {
    Gather(pieces, LinkOf)
  }

  function Strip(s: string): string {
    if s == "" then "" else (if s[0] == SENTINEL then "" else [s[0]]) + Strip(s[1..])
  }

  /** The first sentinel at or after `i`, or the length. */
  function NextSentinel(s: string, i: nat): (r: nat)
    requires i <= |s|
    ensures i <= r <= |s|
    decreases |s| - i
  {
    if i == |s| || s[i] == SENTINEL then i else NextSentinel(s, i + 1)
  }

  lemma {:induction false} NextSentinelIsFirst(s: string, i: nat)
    requires i <= |s|
    ensures var r := NextSentinel(s, i);
      (forall k :: i <= k < r ==> s[k] != SENTINEL) && (r < |s| ==> s[r] == SENTINEL)
    decreases |s| - i
  {
    if i < |s| && s[i] != SENTINEL {
      NextSentinelIsFirst(s, i + 1);
    }
  }

  /** The first space at or after `i`, or the length. */
  function WordEnd(s: string, i: nat): (r: nat)
    requires i <= |s|
    ensures i <= r <= |s|
    decreases |s| - i
  {
    if i == |s| || IsSpace(s[i]) then i else WordEnd(s, i + 1)
  }

  lemma {:induction false} WordEndIsFirst(s: string, i: nat)
    requires i <= |s|
    ensures var r := WordEnd(s, i);
      (forall k :: i <= k < r ==> !IsSpace(s[k])) && (r < |s| ==> IsSpace(s[r]))
    decreases |s| - i
  {
    if i < |s| && !IsSpace(s[i]) {
      WordEndIsFirst(s, i + 1);
    }
  }

  function Prepend(front: seq<Piece>, rest: Option<seq<Piece>>): Option<seq<Piece>> {
    match rest case None => None case Some(p) => Some(front + p)
  }

  /** Pairs the sentinel runs from `cursor` on with the markers, in order; `None` on any mismatch. */
  function Parse(text: string, cursor: nat, markers: seq<Marker>): Option<seq<Piece>>
    requires cursor <= |text|
    decreases |text| - cursor
  {
    var at := NextSentinel(text, cursor);
    if at == |text| then (if markers == [] then Some([Plain(text[cursor..])]) else None)
    else if at + 1 >= |text| || text[at + 1] != '@' then
      Prepend([Plain(text[cursor..at])], Parse(text, at + 1, markers))
    else
      var end := WordEnd(text, at + 2);
      if markers == [] || markers[0].name != text[at + 2..end] then None
      else Prepend([Plain(text[cursor..at]), Link(markers[0])], Parse(text, end, markers[1..]))
  }

  function Serialize(text: string, markers: seq<Marker>): string {
    if SENTINEL !in text then text else
      match Parse(text, 0, markers) case None => Strip(text) case Some(p) => Render(p)
  }

  /** What is rendered from `cursor` on, or `None` where the markers do not fit. */
  function Rendered(text: string, cursor: nat, markers: seq<Marker>): Option<string>
    requires cursor <= |text|
  {
    RenderIfParsed(Parse(text, cursor, markers))
  }

  function RenderIfParsed(parsed: Option<seq<Piece>>): Option<string> {
    match parsed case None => None case Some(p) => Some(Render(p))
  }

  function After(out: string, rest: Option<string>): Option<string> {
    match rest case None => None case Some(s) => Some(out + s)
  }

  lemma GatherOne<T>(p: Piece, f: Piece -> seq<T>)
    ensures Gather([p], f) == f(p)
  {
    assert [p][1..] == [];
  }

  lemma GatherTwo<T>(p: Piece, q: Piece, f: Piece -> seq<T>)
    ensures Gather([p, q], f) == f(p) + f(q)
  {
    assert [p, q][1..] == [q];
    GatherOne(q, f);
  }

  lemma AfterNothing(rest: Option<string>)
    ensures After("", rest) == rest
  {
    match rest
    case None =>
    case Some(s) => assert "" + s == s;
  }

  /** Writing out the first pieces leaves the rest still to come. */
  lemma WriteFront(out: string, front: seq<Piece>, rest: Option<seq<Piece>>)
    ensures After(out, RenderIfParsed(Prepend(front, rest))) == After(out + Render(front), RenderIfParsed(rest))
  {
    match rest
    case None =>
    case Some(p) =>
      GatherConcat(front, p, AsMarkdown);
      assert out + (Render(front) + Render(p)) == out + Render(front) + Render(p);
  }

  lemma WriteLink(out: string, before: string, m: Marker, rest: Option<seq<Piece>>)
    ensures After(out, RenderIfParsed(Prepend([Plain(before), Link(m)], rest)))
         == After(out + before + RenderLink(m), RenderIfParsed(rest))
  {
    WriteFront(out, [Plain(before), Link(m)], rest);
    GatherTwo(Plain(before), Link(m), AsMarkdown);
    var link := AsMarkdown(Link(m));
    assert out + (before + link) == out + before + link;
  }

  /** The loop's bookkeeping: `full` is what has been written followed by what is still to come. */
  ghost predicate Pending(full: Option<string>, out: string, text: string, cursor: nat, rest: seq<Marker>) {
    cursor <= |text| && full == After(out, Rendered(text, cursor, rest))
  }

  lemma PendingEnds(full: Option<string>, out: string, text: string, cursor: nat, rest: seq<Marker>)
    requires Pending(full, out, text, cursor, rest) && NextSentinel(text, cursor) == |text|
    ensures full == if rest == [] then Some(out + text[cursor..]) else None
    ensures Pending(full, out + text[cursor..], text, |text|, rest)
  {
    GatherOne(Plain(text[cursor..]), AsMarkdown);
    GatherOne(Plain(text[|text|..]), AsMarkdown);
    assert out + text[cursor..] + text[|text|..] == out + text[cursor..];
  }

  lemma ParseSkips(text: string, cursor: nat, markers: seq<Marker>)
    requires cursor <= |text|
    requires var at := NextSentinel(text, cursor); at < |text| && (at + 1 == |text| || text[at + 1] != '@')
    ensures var at := NextSentinel(text, cursor);
      Parse(text, cursor, markers) == Prepend([Plain(text[cursor..at])], Parse(text, at + 1, markers))
  {
  }

  lemma PendingSkips(full: Option<string>, out: string, text: string, cursor: nat, rest: seq<Marker>)
    requires Pending(full, out, text, cursor, rest)
    requires var at := NextSentinel(text, cursor); at < |text| && (at + 1 == |text| || text[at + 1] != '@')
    ensures var at := NextSentinel(text, cursor); Pending(full, out + text[cursor..at], text, at + 1, rest)
  {
    var at := NextSentinel(text, cursor);
    var front := Plain(text[cursor..at]);
    ParseSkips(text, cursor, rest);
    WriteFront(out, [front], Parse(text, at + 1, rest));
    GatherOne(front, AsMarkdown);
  }

  lemma ParseLinks(text: string, cursor: nat, markers: seq<Marker>)
    requires cursor <= |text|
    requires var at := NextSentinel(text, cursor); at + 1 < |text| && text[at + 1] == '@'
    ensures var at := NextSentinel(text, cursor);
      var end := WordEnd(text, at + 2);
      Parse(text, cursor, markers) ==
        if markers == [] || markers[0].name != text[at + 2..end] then None
        else Prepend([Plain(text[cursor..at]), Link(markers[0])], Parse(text, end, markers[1..]))
  {
  }

  lemma PendingLinks(full: Option<string>, out: string, text: string, cursor: nat, rest: seq<Marker>)
    requires Pending(full, out, text, cursor, rest)
    requires var at := NextSentinel(text, cursor); at + 1 < |text| && text[at + 1] == '@'
    ensures var at := NextSentinel(text, cursor);
      var end := WordEnd(text, at + 2);
      if rest == [] || rest[0].name != text[at + 2..end] then full == None
      else Pending(full, out + text[cursor..at] + RenderLink(rest[0]), text, end, rest[1..])
  {
    var at := NextSentinel(text, cursor);
    var end := WordEnd(text, at + 2);
    ParseLinks(text, cursor, rest);
    if rest != [] && rest[0].name == text[at + 2..end] {
      WriteLink(out, text[cursor..at], rest[0], Parse(text, end, rest[1..]));
    }
  }

  method ScanWord(text: string, from: nat) returns (wordEnd: nat)
    requires from <= |text|
    ensures wordEnd == WordEnd(text, from)
  {
    wordEnd := from;
    while wordEnd < |text| && !IsSpace(text[wordEnd])
      invariant wordEnd <= |text|
      invariant WordEnd(text, from) == WordEnd(text, wordEnd)
    {
      wordEnd := wordEnd + 1;
    }
  }

  /** What one turn of the loop does: copy up to the next sentinel, then drop it or link its run. */
  ghost predicate Turned(text: string, rest: seq<Marker>, out0: string, cursor0: nat,
                         out: string, cursor: nat, linked: bool, abort: bool)
    requires cursor0 <= |text|
  {
    var at := NextSentinel(text, cursor0);
    if at == |text| then
      out == out0 + text[cursor0..] && cursor == |text| && !linked && !abort
    else if at + 1 == |text| || text[at + 1] != '@' then
      out == out0 + text[cursor0..at] && cursor == at + 1 && !linked && !abort
    else
      var end := WordEnd(text, at + 2);
      if rest == [] || rest[0].name != text[at + 2..end] then abort
      else out == out0 + text[cursor0..at] + RenderLink(rest[0]) && cursor == end && linked && !abort
  }

  lemma TurnKeepsPending(full: Option<string>, text: string, rest: seq<Marker>, out0: string, cursor0: nat,
                         out: string, cursor: nat, linked: bool, abort: bool)
    requires Pending(full, out0, text, cursor0, rest) && Turned(text, rest, out0, cursor0, out, cursor, linked, abort)
    ensures abort ==> full == None
    ensures linked && !abort ==> rest != []
    ensures !abort ==> Pending(full, out, text, cursor, if linked then rest[1..] else rest)
  {
    var at := NextSentinel(text, cursor0);
    if at == |text| {
      assert !abort && !linked && Pending(full, out, text, cursor, rest) by {
        PendingEnds(full, out0, text, cursor0, rest);
      }
    } else if at + 1 == |text| || text[at + 1] != '@' {
      assert !abort && !linked && Pending(full, out, text, cursor, rest) by {
        PendingSkips(full, out0, text, cursor0, rest);
      }
    } else {
      PendingLinks(full, out0, text, cursor0, rest);
    }
  }

  method Turn(text: string, markers: seq<Marker>, out0: string, cursor0: nat, index0: nat)
    returns (out: string, cursor: nat, linked: bool, abort: bool)
    requires cursor0 < |text| && index0 <= |markers|
    ensures Turned(text, markers[index0..], out0, cursor0, out, cursor, linked, abort)
    ensures cursor0 < cursor <= |text| || abort
    ensures linked && !abort ==> index0 < |markers|
  {
    out, cursor, linked, abort := out0, cursor0, false, false;
    var sentinelAt := NextSentinel(text, cursor);
    if sentinelAt == |text| {
      out, cursor := out + text[cursor..], |text|;
    } else if sentinelAt + 1 == |text| || text[sentinelAt + 1] != '@' {
      out, cursor := out + text[cursor..sentinelAt], sentinelAt + 1;
    } else {
      var wordEnd := ScanWord(text, sentinelAt + 2);
      if index0 == |markers| || markers[index0].name != text[sentinelAt + 2..wordEnd] {
        abort := true;
      } else {
        out := out + text[cursor..sentinelAt] + RenderLink(markers[index0]);
        cursor, linked := wordEnd, true;
      }
    }
  }

  method SerializeMentions(text: string, markers: seq<Marker>) returns (r: string)
    ensures r == Serialize(text, markers)
  {
    if SENTINEL !in text { return text; }
    var out := "";
    var cursor: nat := 0;
    var markerIndex: nat := 0;
    var abort := false;
    ghost var full := Rendered(text, 0, markers);
    AfterNothing(full);
    assert markers[0..] == markers;
    while cursor < |text| && !abort
      invariant cursor <= |text| && markerIndex <= |markers|
      invariant if abort then full == None else Pending(full, out, text, cursor, markers[markerIndex..])
      decreases |text| - cursor, !abort
    {
      ghost var out0, cursor0 := out, cursor;
      var linked;
      out, cursor, linked, abort := Turn(text, markers, out, cursor, markerIndex);
      TurnKeepsPending(full, text, markers[markerIndex..], out0, cursor0, out, cursor, linked, abort);
      if abort { break; }
      if linked { markerIndex := markerIndex + 1; }
    }
    if !abort {
      PendingEnds(full, out, text, cursor, markers[markerIndex..]);
      assert out + text[cursor..] == out;
    }
    r := if abort || markerIndex != |markers| then Strip(text) else out;
  }
}
