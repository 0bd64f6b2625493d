/** What the server finds in a whole text: its scan for links, and the mentions of a composed text. */
module MentionScan {
  import opened MentionText
  import opened MentionDocuments
  import opened MentionComposing
  import opened MentionLinks

  datatype Target = Target(kind: string, id: string)

  predicate IsTarget(t: Target) {
    t.kind in KINDS && IsServerId(t.id)
  }

  function Body(t: Target): string {
    "(mention://" + t.kind + "/" + t.id + ")"
  }

  /** What a link ends with. */
  function LinkEnd(t: Target): string {
    [']'] + Body(t)
  }

  ghost predicate EndAt(s: string, j: int, t: Target) {
    IsTarget(t) && 0 <= j && j + |LinkEnd(t)| <= |s| && s[j..j + |LinkEnd(t)|] == LinkEnd(t)
  }

  /** No newline strictly between `i` and `j`. */
  ghost predicate OneLine(s: string, i: int, j: int)
    requires -1 <= i && j <= |s|
  {
    forall k :: i < k < j ==> s[k] != '\n'
  }

  /** The pattern can match from the bracket at `i` with the link's end at `j`. */
  ghost predicate CanMatch(s: string, i: int, j: int, t: Target) {
    0 <= i && i + 2 <= j && EndAt(s, j, t) && s[i] == '[' && OneLine(s, i, j)
  }

  /** The caption is the `@` alone: the optional `@` of the pattern has to be given back. */
  predicate Bare(s: string, i: int, j: int)
    requires 0 <= i && i + 1 < |s|
  {
    s[i + 1] == '@' && j == i + 2
  }

  /** The match the pattern makes first at or after `pos`: the leftmost bracket, then the nearest
      end, but an end that needs the `@` given back only if there is no other. */
  ghost predicate IsFirst(s: string, pos: nat, i: int, j: int, t: Target) {
    && pos <= i && CanMatch(s, i, j, t)
    && (forall i', j', t' :: pos <= i' < i ==> !CanMatch(s, i', j', t'))
    && (forall j', t' :: CanMatch(s, i, j', t') ==> if Bare(s, i, j) then j' == j else Bare(s, i, j') || j <= j')
  }

  ghost predicate NoMatch(s: string, pos: nat) {
    forall i, j, t :: pos <= i ==> !CanMatch(s, i, j, t)
  }

  /** The first match at or after `pos` captures `t` and ends at `next`. */
  ghost predicate FirstEndsAt(s: string, pos: nat, t: Target, next: nat) {
    exists i, j :: IsFirst(s, pos, i, j, t) && next == j + |LinkEnd(t)|
  }

  /** The targets of the successive matches from `pos` on. */
  ghost predicate Finds(s: string, pos: nat, found: seq<Target>)
    decreases |found|
  {
    if found == [] then NoMatch(s, pos)
    else exists next: nat :: FirstEndsAt(s, pos, found[0], next) && Finds(s, next, found[1..])
  }

  // ----- the scan has one outcome -----------------------------------------------------------

  /** `a` ends with its only closing parenthesis. */
  predicate EndsWithParen(a: string) {
    a != "" && a[|a| - 1] == ')' && forall k :: 0 <= k < |a| - 1 ==> a[k] != ')'
  }

  /** None of the characters the scan looks for. */
  predicate IsInner(c: char) {
    c != '[' && c != ']' && c != ')' && c != '\n'
  }

  ghost predicate AllInner(s: string) {
    forall c :: c in s ==> IsInner(c)
  }

  lemma KindIsInner(kind: string)
    requires kind in KINDS
    ensures AllInner(kind)
  {
  }

  lemma IdIsInner(id: string)
    requires IsServerId(id)
    ensures AllInner(id)
  {
    if id != "all" {
      forall c | c in id
        ensures IsInner(c)
      {
        assert IsHexOrDash(c);
      }
    }
  }

  lemma BodyShape(t: Target)
    requires IsTarget(t)
    ensures EndsWithParen(Body(t)) && forall c :: c in Body(t) ==> c == ')' || IsInner(c)
  {
    var front := "(mention://" + t.kind + "/" + t.id;
    KindIsInner(t.kind);
    IdIsInner(t.id);
    assert AllInner("(mention://") && AllInner("/");
    assert AllInner(front);
    assert Body(t) == front + ")";
    forall k | 0 <= k < |front|
      ensures Body(t)[k] != ')'
    {
      assert front[k] in front && IsInner(front[k]);
    }
  }

  lemma ParenIsFirst(s: string, from: nat, a: string, b: string)
    requires EndsWithParen(a) && EndsWithParen(b) && from + |a| <= |s| && from + |b| <= |s|
    requires s[from..from + |a|] == a && s[from..from + |b|] == b
    ensures |a| <= |b|
  {
    var last := |b| - 1;
    assert s[from..from + |b|][last] == s[from + last] == ')';
    assert last < |a| ==> s[from..from + |a|][last] == s[from + last];
  }

  lemma EndsAgree(s: string, j: int, t: Target, u: Target)
    requires EndAt(s, j, t) && EndAt(s, j, u)
    ensures t == u
  {
    BodyShape(t);
    BodyShape(u);
    var a, b := Body(t), Body(u);
    assert s[j + 1..j + 1 + |a|] == a by { assert s[j..j + |LinkEnd(t)|][1..] == LinkEnd(t)[1..] == a; }
    assert s[j + 1..j + 1 + |b|] == b by { assert s[j..j + |LinkEnd(u)|][1..] == LinkEnd(u)[1..] == b; }
    ParenIsFirst(s, j + 1, a, b);
    ParenIsFirst(s, j + 1, b, a);
    SameBody(t, u);
  }

  lemma SameBody(t: Target, u: Target)
    requires IsTarget(t) && IsTarget(u) && Body(t) == Body(u)
    ensures t == u
  {
    EmptyLink(t);
    EmptyLink(u);
    LinkIsInjective("", t.kind, t.id, "", u.kind, u.id);
  }

  lemma EmptyLink(t: Target)
    ensures LinkWith("", t.kind, t.id) == "[]" + Body(t)
  {
    assert "[" + "" + "](mention://" == "[]" + "(mention://";
  }

  lemma FirstAgrees(s: string, pos: nat, i: int, j: int, t: Target, i': int, j': int, t': Target)
    requires IsFirst(s, pos, i, j, t) && IsFirst(s, pos, i', j', t')
    ensures i == i' && j == j' && t == t'
  {
    assert i == i';
    assert j == j';
    EndsAgree(s, j, t, t');
  }

  lemma FirstEndAgrees(s: string, pos: nat, t: Target, next: nat, t': Target, next': nat)
    requires FirstEndsAt(s, pos, t, next) && FirstEndsAt(s, pos, t', next')
    ensures t == t' && next == next'
  {
    var i, j :| IsFirst(s, pos, i, j, t) && next == j + |LinkEnd(t)|;
    var i', j' :| IsFirst(s, pos, i', j', t') && next' == j' + |LinkEnd(t')|;
    FirstAgrees(s, pos, i, j, t, i', j', t');
  }

  lemma FirstIsMatch(s: string, pos: nat, t: Target, next: nat)
    requires FirstEndsAt(s, pos, t, next)
    ensures !NoMatch(s, pos)
  {
    var i, j :| IsFirst(s, pos, i, j, t) && next == j + |LinkEnd(t)|;
    assert CanMatch(s, i, j, t);
  }

  lemma FoundIsMatch(s: string, pos: nat, a: seq<Target>)
    requires Finds(s, pos, a)
    ensures a == [] <==> NoMatch(s, pos)
  {
    if a != [] {
      var next: nat :| FirstEndsAt(s, pos, a[0], next) && Finds(s, next, a[1..]);
      FirstIsMatch(s, pos, a[0], next);
    }
  }

  lemma FoundTogether(s: string, pos: nat, a: seq<Target>, b: seq<Target>) returns (next: nat)
    requires Finds(s, pos, a) && Finds(s, pos, b) && a != [] && b != []
    ensures a[0] == b[0] && Finds(s, next, a[1..]) && Finds(s, next, b[1..])
  {
    next :| FirstEndsAt(s, pos, a[0], next) && Finds(s, next, a[1..]);
    var next': nat :| FirstEndsAt(s, pos, b[0], next') && Finds(s, next', b[1..]);
    FirstEndAgrees(s, pos, a[0], next, b[0], next');
  }

  /** Whatever is found, it is the only thing found. */
  lemma {:induction false} FindsOnce(s: string, pos: nat, a: seq<Target>, b: seq<Target>)
    requires Finds(s, pos, a) && Finds(s, pos, b)
    ensures a == b
    decreases |a|
  {
    FoundIsMatch(s, pos, a);
    FoundIsMatch(s, pos, b);
    if a != [] {
      var next := FoundTogether(s, pos, a, b);
      FindsOnce(s, next, a[1..], b[1..]);
      assert a == [a[0]] + a[1..] && b == [b[0]] + b[1..];
    }
  }

  // ----- a mention in plain text ---------------------------------------------------------------

  /** No link ends anywhere in `s`. */
  ghost predicate NoLinkEnds(s: string) {
    forall j, t :: !EndAt(s, j, t)
  }

  /** From `pos` on: the plain text `plain`, a link with `caption` and `t`. */
  ghost predicate LinkAt(s: string, pos: nat, plain: string, caption: string, t: Target) {
    var open := pos + |plain|;
    var end := open + 1 + |caption|;
    && end + |LinkEnd(t)| <= |s|
    && s[pos..open] == plain && s[open] == '[' && s[open + 1..end] == caption && EndAt(s, end, t)
  }

  lemma EndWithinPart(s: string, from: nat, bar: nat, part: string, j: int, t: Target)
    requires from <= bar <= |s| && s[from..bar] == part && from <= j && j + |LinkEnd(t)| <= bar && EndAt(s, j, t)
    ensures EndAt(part, j - from, t)
  {
    var n := |LinkEnd(t)|;
    var a, b := part[j - from..j - from + n], s[j..j + n];
    forall x | 0 <= x < n
      ensures a[x] == b[x]
    {
      assert a[x] == part[j - from + x] && b[x] == s[j + x];
    }
    assert a == b;
  }

  lemma EndStarts(s: string, j: int, t: Target)
    requires EndAt(s, j, t)
    ensures s[j] == ']'
  {
    assert s[j] == s[j..j + |LinkEnd(t)|][0];
  }

  lemma EndHasNoBracketInside(s: string, bar: nat, j: int, t: Target)
    requires EndAt(s, j, t) && j < bar < j + |LinkEnd(t)|
    ensures s[bar] != '[' && s[bar] != ']'
  {
    BodyShape(t);
    assert s[bar] == s[j..j + |LinkEnd(t)|][bar - j] == LinkEnd(t)[bar - j] == Body(t)[bar - j - 1];
    assert s[bar] in Body(t);
  }

  /** No link ends before a bracket if none ends within the text up to it. */
  lemma NoEndBefore(s: string, from: nat, bar: nat, part: string, j: int, t: Target)
    requires from <= bar < |s| && s[from..bar] == part && NoLinkEnds(part)
    requires (s[bar] == '[' || s[bar] == ']') && from <= j < bar
    ensures !EndAt(s, j, t)
  {
    if EndAt(s, j, t) {
      if j + |LinkEnd(t)| <= bar {
        EndWithinPart(s, from, bar, part, j, t);
      } else {
        EndHasNoBracketInside(s, bar, j, t);
      }
    }
  }

  ghost predicate IsOwnCaption(caption: string) {
    IsCaption(caption) && caption != "@" && NoLinkEnds(caption)
  }

  /** Before the end of the link itself, links end only within the plain text. */
  lemma EarlierEndsInPlain(s: string, pos: nat, plain: string, caption: string, t: Target, j: int, u: Target)
    requires LinkAt(s, pos, plain, caption, t) && NoLinkEnds(caption)
    requires EndAt(s, j, u) && pos <= j < pos + |plain| + 1 + |caption|
    ensures j + |LinkEnd(u)| <= pos + |plain| && EndAt(plain, j - pos, u)
  {
    var open := pos + |plain|;
    var end := open + 1 + |caption|;
    EndStarts(s, j, u);
    if j < open {
      if j + |LinkEnd(u)| > open {
        EndHasNoBracketInside(s, open, j, u);
      }
      EndWithinPart(s, pos, open, plain, j, u);
    } else {
      EndStarts(s, end, t);
      NoEndBefore(s, open + 1, end, caption, j, u);
    }
  }

  lemma PlainLine(s: string, pos: nat, plain: string, i: int, j: int)
    requires pos + |plain| <= |s| && s[pos..pos + |plain|] == plain && pos <= i && j <= pos + |plain|
    ensures OneLine(s, i, j) <==> OneLine(plain, i - pos, j - pos)
  {
    forall k | pos <= k < pos + |plain|
      ensures s[k] == plain[k - pos]
    {
      assert s[k] == s[pos..pos + |plain|][k - pos];
    }
    assert OneLine(s, i, j) ==> OneLine(plain, i - pos, j - pos) by {
      assert forall k :: i - pos < k < j - pos ==> plain[k] == s[k + pos];
    }
  }

  /** Matches within the plain text are the plain text's own. */
  lemma PlainMatch(s: string, pos: nat, plain: string, i: int, j: int, u: Target)
    requires pos + |plain| <= |s| && s[pos..pos + |plain|] == plain && pos <= i
    requires j + |LinkEnd(u)| <= pos + |plain| && pos <= j
    ensures CanMatch(s, i, j, u) <==> CanMatch(plain, i - pos, j - pos, u)
    ensures i + 2 <= j ==> (Bare(s, i, j) <==> Bare(plain, i - pos, j - pos))
  {
    var bar, n := pos + |plain|, |LinkEnd(u)|;
    if i + 2 <= j {
      PlainLine(s, pos, plain, i, j);
      assert s[i] == s[pos..bar][i - pos] && s[i + 1] == s[pos..bar][i + 1 - pos];
      var a, b := plain[j - pos..j - pos + n], s[j..j + n];
      forall x | 0 <= x < n
        ensures a[x] == b[x]
      {
        assert a[x] == plain[j - pos + x] && b[x] == s[j + x];
      }
      assert a == b;
    }
  }

  /** The first bracket from `k` on with nothing but its line up to `end`. */
  lemma FirstBracket(s: string, k: nat, open: nat, end: nat) returns (i: nat)
    requires k <= open < end <= |s| && s[open] == '[' && OneLine(s, open, end)
    ensures k <= i <= open && s[i] == '[' && OneLine(s, i, end)
    ensures forall i' :: k <= i' < i ==> !(s[i'] == '[' && OneLine(s, i', end))
    decreases open - k
  {
    if s[k] == '[' && OneLine(s, k, end) {
      i := k;
    } else {
      i := FirstBracket(s, k + 1, open, end);
    }
  }

  lemma MatchIsOneLine(s: string, i: int, j: int, t: Target, end: nat)
    requires CanMatch(s, i, j, t) && i < end && end <= |s| && (EndAt(s, j, t) ==> end <= j)
    ensures s[i] == '[' && OneLine(s, i, end)
  {
  }

  /** A link that the pattern matches within the plain text `p`. With a link following on its line,
      a bracket with nothing but an `@` behind it takes that link's end instead. */
  ghost predicate Typed(p: string, followed: bool, i: int, j: int, u: Target) {
    CanMatch(p, i, j, u) && !(followed && Bare(p, i, j) && OneLine(p, i, |p|))
  }

  ghost predicate Quiet(p: string, followed: bool) {
    forall i, j, u :: !Typed(p, followed, i, j, u)
  }

  lemma OwnLine(s: string, pos: nat, plain: string, caption: string, t: Target, i: int)
    requires LinkAt(s, pos, plain, caption, t) && IsCaption(caption) && pos <= i <= pos + |plain|
    ensures OneLine(s, i, pos + |plain| + 1 + |caption|) <==> OneLine(plain, i - pos, |plain|)
  {
    var open := pos + |plain|;
    var end := open + 1 + |caption|;
    forall k | open <= k < end
      ensures s[k] != '\n'
    {
      assert k > open ==> s[k] == s[open + 1..end][k - open - 1] && s[k] in caption;
    }
    PlainLine(s, pos, plain, i, open);
    assert OneLine(s, i, open) ==> OneLine(s, i, end);
  }

  lemma EarlierMatchIsPlain(s: string, pos: nat, plain: string, caption: string, t: Target, i: int, j: int, u: Target)
    requires LinkAt(s, pos, plain, caption, t) && IsOwnCaption(caption) && pos <= i
    requires CanMatch(s, i, j, u) && j < pos + |plain| + 1 + |caption|
    ensures j + |LinkEnd(u)| <= pos + |plain| && CanMatch(plain, i - pos, j - pos, u)
    ensures Bare(s, i, j) <==> Bare(plain, i - pos, j - pos)
  {
    EarlierEndsInPlain(s, pos, plain, caption, t, j, u);
    PlainMatch(s, pos, plain, i, j, u);
  }

  /** In quiet text the first match captures the link's own target, whatever brackets stand in front. */
  lemma OwnIsFirst(s: string, pos: nat, plain: string, caption: string, t: Target)
    requires LinkAt(s, pos, plain, caption, t) && Quiet(plain, true) && IsOwnCaption(caption)
    ensures FirstEndsAt(s, pos, t, pos + |plain| + 1 + |caption| + |LinkEnd(t)|)
  {
    var open := pos + |plain|;
    var end := open + 1 + |caption|;
    OwnLine(s, pos, plain, caption, t, open);
    var i := FirstBracket(s, pos, open, end);
    assert CanMatch(s, i, end, t);
    forall i', j', u | pos <= i' < i
      ensures !CanMatch(s, i', j', u)
    {
      if CanMatch(s, i', j', u) { NoEarlierBracket(s, pos, plain, caption, t, i', j', u); }
    }
    forall j', u | CanMatch(s, i, j', u) && j' < end
      ensures Bare(s, i, j')
    {
      EarlierMatchIsPlain(s, pos, plain, caption, t, i, j', u);
      assert !Typed(plain, true, i - pos, j' - pos, u);
    }
    OwnIsNotBare(s, pos, plain, caption, t, i);
    assert IsFirst(s, pos, i, end, t);
  }

  lemma OwnIsNotBare(s: string, pos: nat, plain: string, caption: string, t: Target, i: int)
    requires LinkAt(s, pos, plain, caption, t) && IsOwnCaption(caption) && pos <= i <= pos + |plain|
    ensures !Bare(s, i, pos + |plain| + 1 + |caption|)
  {
    var open := pos + |plain|;
    if i == open && |caption| == 1 {
      assert s[open + 1..open + 2][0] == caption[0];
      assert caption == [caption[0]];
    }
  }

  lemma NoEarlierBracket(s: string, pos: nat, plain: string, caption: string, t: Target, i: int, j: int, u: Target)
    requires LinkAt(s, pos, plain, caption, t) && Quiet(plain, true) && IsOwnCaption(caption)
    requires pos <= i <= pos + |plain| && CanMatch(s, i, j, u)
    ensures s[i] == '[' && OneLine(s, i, pos + |plain| + 1 + |caption|)
  {
    var end := pos + |plain| + 1 + |caption|;
    if j < end {
      EarlierMatchIsPlain(s, pos, plain, caption, t, i, j, u);
      assert !Typed(plain, true, i - pos, j - pos, u);
      OwnLine(s, pos, plain, caption, t, i);
    }
  }

  /** The first match ends within the plain text, or is the link's own. */
  lemma FirstEndsByOwn(s: string, pos: nat, plain: string, caption: string, t: Target, u: Target, next: nat)
    requires LinkAt(s, pos, plain, caption, t) && IsOwnCaption(caption) && FirstEndsAt(s, pos, u, next)
    ensures pos < next <= pos + |plain| || (u == t && next == pos + |plain| + 1 + |caption| + |LinkEnd(t)|)
  {
    var open := pos + |plain|;
    var end := open + 1 + |caption|;
    var i, j :| IsFirst(s, pos, i, j, u) && next == j + |LinkEnd(u)|;
    OwnLine(s, pos, plain, caption, t, open);
    assert CanMatch(s, open, end, t);
    assert i <= open;
    if j < end {
      EarlierMatchIsPlain(s, pos, plain, caption, t, i, j, u);
    } else {
      MatchIsOneLine(s, i, j, u, end);
      assert CanMatch(s, i, end, t);
      OwnIsNotBare(s, pos, plain, caption, t, i);
      assert j == end;
      EndsAgree(s, end, t, u);
    }
  }

  lemma MatchFromEarlier(s: string, i: int, i0: int, j0: int, u0: Target, end: nat)
    requires 0 <= i <= i0 && CanMatch(s, i0, j0, u0) && j0 <= end <= |s| && s[i] == '[' && OneLine(s, i, end)
    ensures CanMatch(s, i, j0, u0) && (Bare(s, i, j0) ==> i == i0)
  {
  }

  /** A bracket whose line reaches the end of the plain text reaches the typed link's end as well. */
  lemma TypedInReach(s: string, pos: nat, plain: string, i: int, i0: int, j0: int, u0: Target)
    requires pos + |plain| <= |s| && s[pos..pos + |plain|] == plain && Typed(plain, true, i0, j0, u0)
    requires pos <= i <= pos + i0 && s[i] == '[' && OneLine(s, i, pos + |plain|)
    ensures CanMatch(s, i, pos + j0, u0) && !Bare(s, i, pos + j0)
  {
    PlainMatch(s, pos, plain, pos + i0, pos + j0, u0);
    MatchFromEarlier(s, i, pos + i0, pos + j0, u0, pos + |plain|);
    PlainLine(s, pos, plain, i, pos + |plain|);
  }

  lemma StartsByTyped(s: string, pos: nat, plain: string, i: int, j: int, u: Target, i0: int, j0: int, u0: Target)
    requires pos + |plain| <= |s| && s[pos..pos + |plain|] == plain && IsFirst(s, pos, i, j, u)
    requires Typed(plain, true, i0, j0, u0)
    ensures i <= pos + i0
  {
    PlainMatch(s, pos, plain, pos + i0, pos + j0, u0);
  }

  /** A typed link is matched before the link that follows. */
  lemma TypedIsFirst(s: string, pos: nat, plain: string, caption: string, t: Target, i: int, j: int, u: Target)
    requires LinkAt(s, pos, plain, caption, t) && IsOwnCaption(caption) && IsFirst(s, pos, i, j, u)
    requires !Quiet(plain, true)
    ensures j < pos + |plain| + 1 + |caption|
  {
    var end := pos + |plain| + 1 + |caption|;
    var i0, j0, u0 :| Typed(plain, true, i0, j0, u0);
    StartsByTyped(s, pos, plain, i, j, u, i0, j0, u0);
    if OneLine(s, i, end) {
      OwnIsNotBare(s, pos, plain, caption, t, i);
      TypedInReach(s, pos, plain, i, i0, j0, u0);
    }
  }

  lemma TypedEndsFirst(s: string, pos: nat, plain: string, caption: string, t: Target, u: Target, next: nat)
    requires LinkAt(s, pos, plain, caption, t) && IsOwnCaption(caption) && FirstEndsAt(s, pos, u, next)
    requires !Quiet(plain, true)
    ensures next <= pos + |plain|
  {
    var i, j :| IsFirst(s, pos, i, j, u) && next == j + |LinkEnd(u)|;
    TypedIsFirst(s, pos, plain, caption, t, i, j, u);
    EarlierMatchIsPlain(s, pos, plain, caption, t, i, j, u);
  }

  // ----- captions that get in the way ----------------------------------------------------------

  /** A link whose caption is the `@` alone is read only if its line holds no later link end: otherwise
      the pattern takes the `@`, runs on, and reads that link's target instead. */
  lemma BareLinkIsReadExactly(s: string, pos: nat, plain: string, t: Target)
    requires LinkAt(s, pos, plain, "@", t) && '[' !in plain
    ensures var open := pos + |plain|;
      FirstEndsAt(s, pos, t, open + 2 + |LinkEnd(t)|)
      <==> forall j, u :: j > open + 2 && EndAt(s, j, u) ==> !OneLine(s, open, j)
  {
    var open := pos + |plain|;
    assert s[open + 1] == '@' by { assert s[open + 1..open + 2][0] == '@'; }
    assert CanMatch(s, open, open + 2, t);
    forall i, j, u | pos <= i < open
      ensures !CanMatch(s, i, j, u)
    {
      assert s[i] == s[pos..open][i - pos] && plain[i - pos] in plain;
    }
    if FirstEndsAt(s, pos, t, open + 2 + |LinkEnd(t)|) {
      var i, j :| IsFirst(s, pos, i, j, t) && open + 2 + |LinkEnd(t)| == j + |LinkEnd(t)|;
      assert i == open && Bare(s, i, j);
      forall j', u | j' > open + 2 && EndAt(s, j', u)
        ensures !OneLine(s, open, j')
      {
        assert !CanMatch(s, open, j', u);
      }
    }
    if forall j, u :: j > open + 2 && EndAt(s, j, u) ==> !OneLine(s, open, j) {
      assert IsFirst(s, pos, open, open + 2, t);
    }
  }

  lemma EndWithinCaption(s: string, pos: nat, plain: string, caption: string, t: Target, x: nat, v: Target)
    requires LinkAt(s, pos, plain, caption, t) && EndAt(caption, x, v)
    ensures EndAt(s, pos + |plain| + 1 + x, v)
  {
    var from, n := pos + |plain| + 1, |LinkEnd(v)|;
    var a, b := s[from + x..from + x + n], caption[x..x + n];
    assert s[from..from + |caption|] == caption;
    forall k | 0 <= k < n
      ensures a[k] == b[k]
    {
      assert a[k] == s[from + x + k] && b[k] == caption[x + k];
    }
    assert a == b;
  }

  lemma InnerCanMatch(s: string, pos: nat, plain: string, caption: string, t: Target, x: nat, v: Target)
    requires LinkAt(s, pos, plain, caption, t) && IsCaption(caption) && EndAt(caption, x, v) && x > 0
    ensures CanMatch(s, pos + |plain|, pos + |plain| + 1 + x, v)
    ensures Bare(s, pos + |plain|, pos + |plain| + 1 + x) ==> x == 1 && caption[0] == '@'
  {
    var open := pos + |plain|;
    EndWithinCaption(s, pos, plain, caption, t, x, v);
    OwnLine(s, pos, plain, caption, t, open);
    assert s[open + 1] == caption[0] by { assert s[open + 1..open + 1 + |caption|][0] == caption[0]; }
  }

  /** Of a link whose caption holds a link end, the own target is not read first: whatever is read ends
      within the caption or before it. */
  lemma InnerLinkIsReadFirst(s: string, pos: nat, plain: string, caption: string, t: Target,
                             x: nat, v: Target, u: Target, next: nat)
    requires LinkAt(s, pos, plain, caption, t) && IsCaption(caption)
    requires EndAt(caption, x, v) && x > 0 && !(x == 1 && caption[0] == '@')
    requires FirstEndsAt(s, pos, u, next)
    ensures next <= pos + |plain| + 1 + |caption|
  {
    var open := pos + |plain|;
    var end, inner := open + 1 + |caption|, open + 1 + x;
    var i, j :| IsFirst(s, pos, i, j, u) && next == j + |LinkEnd(u)|;
    InnerCanMatch(s, pos, plain, caption, t, x, v);
    assert i <= open;
    if j >= end {
      InnerIsNearer(s, i, j, u, open, inner, v);
    } else if next > end {
      EndStarts(s, end, t);
      EndHasNoBracketInside(s, end, j, u);
    }
  }

  lemma InnerIsNearer(s: string, i: int, j: int, u: Target, open: int, inner: int, v: Target)
    requires CanMatch(s, i, j, u) && CanMatch(s, open, inner, v) && i <= open && inner < j
    ensures CanMatch(s, i, inner, v) && !Bare(s, i, j) && (Bare(s, i, inner) ==> i == open)
  {
  }

  // ----- whole documents --------------------------------------------------------------------------

  function TargetOf(m: Marker): Target {
    Target(KindName(m.kind), m.id)
  }

  function Targets(segs: seq<Segment>): seq<Target> {
    if segs == [] then [] else [TargetOf(segs[0].m)] + Targets(segs[1..])
  }

  /** The document as it is sent, its mentions linked to their own targets. */
  function Sent(segs: seq<Segment>, tail: string): string {
    if segs == [] then tail else segs[0].text + RenderLink(segs[0].m) + Sent(segs[1..], tail)
  }

  lemma {:induction false} LinkedIsSent(segs: seq<Segment>, tail: string)
    ensures NamesMatch(segs, Marks(segs)) && Render(Linked(segs, Marks(segs), tail)) == Sent(segs, tail)
  {
    MarksMatch(segs);
    if segs == [] {
      GatherOne(Plain(tail), AsMarkdown);
    } else {
      var front := [Plain(segs[0].text), Link(segs[0].m)];
      LinkedIsSent(segs[1..], tail);
      GatherTwo(front[0], front[1], AsMarkdown);
      GatherConcat(front, Linked(segs[1..], Marks(segs[1..]), tail), AsMarkdown);
    }
  }

  /** The mentions' links are the server's to read. */
  ghost predicate Readable(segs: seq<Segment>) {
    forall g :: g in segs ==> IsOwnCaption(Caption(g.m)) && IsServerId(g.m.id)
  }

  /** No link is typed in the text between the mentions. */
  ghost predicate NoTypedLinks(segs: seq<Segment>, tail: string) {
    Quiet(tail, false) && forall g :: g in segs ==> Quiet(g.text, true)
  }

  lemma RenderedShape(m: Marker)
    ensures RenderLink(m) == "[" + Caption(m) + LinkEnd(TargetOf(m))
  {
    var t := TargetOf(m);
    RenderLinkIsLink(m);
    assert "](mention://" == [']'] + "(mention://";
    assert "[" + Caption(m) + "](mention://" + t.kind + "/" + t.id + ")" == "[" + Caption(m) + LinkEnd(t);
  }

  lemma LinkIsAt(s: string, pos: nat, g: Segment, rest: string, next: nat)
    requires pos <= |s| && s[pos..] == g.text + RenderLink(g.m) + rest && IsTarget(TargetOf(g.m))
    requires next == pos + |g.text| + 1 + |Caption(g.m)| + |LinkEnd(TargetOf(g.m))|
    ensures LinkAt(s, pos, g.text, Caption(g.m), TargetOf(g.m)) && next <= |s| && s[next..] == rest
  {
    RenderedShape(g.m);
    Apart(s, pos, g.text, Caption(g.m), LinkEnd(TargetOf(g.m)), rest);
  }

  lemma Apart(s: string, pos: nat, plain: string, caption: string, end: string, rest: string)
    requires pos <= |s| && s[pos..] == plain + ("[" + caption + end) + rest
    ensures var open := pos + |plain|;
      var at := open + 1 + |caption|;
      && at + |end| <= |s|
      && s[pos..open] == plain && s[open] == '[' && s[open + 1..at] == caption
      && s[at..at + |end|] == end && s[at + |end|..] == rest
  {
    var u := s[pos..];
    var o := |plain|;
    var a := o + 1 + |caption|;
    assert u[..o] == plain && u[o] == '[' && u[o + 1..a] == caption && u[a..a + |end|] == end && u[a + |end|..] == rest;
    assert s[pos..pos + o] == u[..o] && s[pos + o] == u[o] && s[pos + o + 1..pos + a] == u[o + 1..a];
    assert s[pos + a..pos + a + |end|] == u[a..a + |end|] && s[pos + a + |end|..] == u[a + |end|..];
  }

  lemma TailMatches(s: string, pos: nat, tail: string, i: int, j: int, t: Target)
    requires pos <= |s| && s[pos..] == tail && pos <= i
    ensures CanMatch(s, i, j, t) <==> CanMatch(tail, i - pos, j - pos, t)
  {
    if j + |LinkEnd(t)| <= |s| && pos <= j {
      PlainMatch(s, pos, tail, i, j, t);
    }
  }

  lemma NothingFound(s: string, pos: nat)
    requires pos <= |s|
    ensures NoMatch(s, pos) <==> Quiet(s[pos..], false)
  {
    var tail := s[pos..];
    if NoMatch(s, pos) {
      forall i, j, u
        ensures !Typed(tail, false, i, j, u)
      {
        if 0 <= i { TailMatches(s, pos, tail, pos + i, pos + j, u); }
      }
    }
    if Quiet(tail, false) {
      forall i, j, t | pos <= i
        ensures !CanMatch(s, i, j, t)
      {
        TailMatches(s, pos, tail, i, j, t);
        assert !Typed(tail, false, i - pos, j - pos, t);
      }
    }
  }

  /** From a document without typed links the server finds the mentions' targets, in order. */
  lemma {:induction false} FindsOwnTargets(s: string, pos: nat, segs: seq<Segment>, tail: string)
    requires pos <= |s| && s[pos..] == Sent(segs, tail) && Readable(segs) && NoTypedLinks(segs, tail)
    ensures Finds(s, pos, Targets(segs))
    decreases |segs|
  {
    if segs == [] {
      NothingFound(s, pos);
    } else {
      var g, t := segs[0], TargetOf(segs[0].m);
      var next := pos + |g.text| + 1 + |Caption(g.m)| + |LinkEnd(t)|;
      assert g in segs;
      KindIsKnown(g.m.kind);
      LinkIsAt(s, pos, g, Sent(segs[1..], tail), next);
      OwnIsFirst(s, pos, g.text, Caption(g.m), t);
      FindsOwnTargets(s, next, segs[1..], tail);
      assert Targets(segs)[0] == t && Targets(segs)[1..] == Targets(segs[1..]);
    }
  }

  /** What is left of the document when part of the first text is passed over. */
  function Later(segs: seq<Segment>, n: nat): seq<Segment>
    requires segs != [] && n <= |segs[0].text|
  {
    [Segment(segs[0].text[n..], segs[0].m)] + segs[1..]
  }

  lemma LaterIsSent(s: string, pos: nat, segs: seq<Segment>, tail: string, n: nat)
    requires pos <= |s| && s[pos..] == Sent(segs, tail) && segs != [] && n <= |segs[0].text|
    ensures pos + n <= |s| && s[pos + n..] == Sent(Later(segs, n), tail)
  {
    var more := RenderLink(segs[0].m) + Sent(segs[1..], tail);
    Associates(segs[0].text, RenderLink(segs[0].m), Sent(segs[1..], tail));
    Suffix(s, pos, segs[0].text, more, n);
    SentLater(segs, tail, n);
  }

  lemma SentLater(segs: seq<Segment>, tail: string, n: nat)
    requires segs != [] && n <= |segs[0].text|
    ensures Sent(Later(segs, n), tail) == segs[0].text[n..] + (RenderLink(segs[0].m) + Sent(segs[1..], tail))
  {
    var a, b, c := segs[0].text[n..], RenderLink(segs[0].m), Sent(segs[1..], tail);
    assert Later(segs, n)[1..] == segs[1..];
    assert Later(segs, n)[0] == Segment(a, segs[0].m);
    Associates(a, b, c);
  }

  lemma Suffix(s: string, pos: nat, a: string, b: string, n: nat)
    requires pos <= |s| && s[pos..] == a + b && n <= |a|
    ensures pos + n <= |s| && s[pos + n..] == a[n..] + b
  {
    assert s[pos + n..] == s[pos..][n..] == (a + b)[n..] == a[n..] + b;
  }

  /** The first mention's link as it stands in the text. */
  lemma FirstLinkIsAt(s: string, pos: nat, segs: seq<Segment>, tail: string)
    requires pos <= |s| && s[pos..] == Sent(segs, tail) && Readable(segs) && segs != []
    ensures var g, t := segs[0], TargetOf(segs[0].m);
      && LinkAt(s, pos, g.text, Caption(g.m), t) && IsOwnCaption(Caption(g.m))
      && pos + |g.text| + 1 + |Caption(g.m)| + |LinkEnd(t)| <= |s|
      && s[pos + |g.text| + 1 + |Caption(g.m)| + |LinkEnd(t)|..] == Sent(segs[1..], tail)
  {
    var g, t := segs[0], TargetOf(segs[0].m);
    assert g in segs;
    KindIsKnown(g.m.kind);
    LinkIsAt(s, pos, g, Sent(segs[1..], tail), pos + |g.text| + 1 + |Caption(g.m)| + |LinkEnd(t)|);
  }

  /** The scan after its first match. */
  lemma Proceeds(s: string, pos: nat, found: seq<Target>) returns (next: nat)
    requires Finds(s, pos, found) && found != []
    ensures FirstEndsAt(s, pos, found[0], next) && Finds(s, next, found[1..])
  {
    next :| FirstEndsAt(s, pos, found[0], next) && Finds(s, next, found[1..]);
  }

  /** Where the first match in front of a mention may end: in the text before it, or with the mention. */
  ghost predicate EndsInTurn(s: string, pos: nat, segs: seq<Segment>, tail: string, next: nat)
    requires segs != []
  {
    || pos < next <= pos + |segs[0].text|
    || (Quiet(segs[0].text, true) && next <= |s| && s[next..] == Sent(segs[1..], tail))
  }

  lemma OwnCanMatch(s: string, pos: nat, plain: string, caption: string, t: Target)
    requires LinkAt(s, pos, plain, caption, t) && IsCaption(caption)
    ensures !NoMatch(s, pos)
  {
    OwnLine(s, pos, plain, caption, t, pos + |plain|);
    assert CanMatch(s, pos + |plain|, pos + |plain| + 1 + |caption|, t);
  }

  lemma FirstEndsPlainOrOwn(s: string, pos: nat, plain: string, caption: string, t: Target, u: Target, next: nat)
    requires LinkAt(s, pos, plain, caption, t) && IsOwnCaption(caption) && FirstEndsAt(s, pos, u, next)
    ensures pos < next <= pos + |plain|
      || (Quiet(plain, true) && next == pos + |plain| + 1 + |caption| + |LinkEnd(t)|)
  {
    FirstEndsByOwn(s, pos, plain, caption, t, u, next);
    if !Quiet(plain, true) {
      TypedEndsFirst(s, pos, plain, caption, t, u, next);
    }
  }

  lemma FirstEndsInTurn(s: string, pos: nat, segs: seq<Segment>, tail: string, u: Target, next: nat)
    requires pos <= |s| && s[pos..] == Sent(segs, tail) && Readable(segs) && segs != [] && FirstEndsAt(s, pos, u, next)
    ensures EndsInTurn(s, pos, segs, tail, next)
  {
    FirstLinkIsAt(s, pos, segs, tail);
    FirstEndsPlainOrOwn(s, pos, segs[0].text, Caption(segs[0].m), TargetOf(segs[0].m), u, next);
  }

  /** With a mention still to come something is found: in the text before it, or the mention itself. */
  lemma FirstFound(s: string, pos: nat, segs: seq<Segment>, tail: string, found: seq<Target>) returns (next: nat)
    requires pos <= |s| && s[pos..] == Sent(segs, tail) && Readable(segs) && segs != [] && Finds(s, pos, found)
    ensures found != [] && Finds(s, next, found[1..]) && EndsInTurn(s, pos, segs, tail, next)
  {
    assert !NoMatch(s, pos) by {
      FirstLinkIsAt(s, pos, segs, tail);
      OwnCanMatch(s, pos, segs[0].text, Caption(segs[0].m), TargetOf(segs[0].m));
    }
    FoundIsMatch(s, pos, found);
    next := Proceeds(s, pos, found);
    FirstEndsInTurn(s, pos, segs, tail, found[0], next);
  }

  lemma LaterIsReadable(segs: seq<Segment>, n: nat)
    requires Readable(segs) && segs != [] && n <= |segs[0].text|
    ensures Readable(Later(segs, n)) && Readable(segs[1..]) && |Later(segs, n)| == |segs|
  {
    forall g | g in Later(segs, n)
      ensures IsOwnCaption(Caption(g.m)) && IsServerId(g.m.id)
    {
      assert g.m == segs[0].m || g in segs[1..];
      assert segs[0] in segs;
    }
  }

  /** What is left of the text is the document `rest`, with links the server reads. */
  ghost predicate IsLeft(s: string, next: nat, rest: seq<Segment>, tail: string) {
    next <= |s| && s[next..] == Sent(rest, tail) && Readable(rest)
  }

  lemma LaterIsLeft(s: string, pos: nat, segs: seq<Segment>, tail: string, next: nat)
    requires IsLeft(s, pos, segs, tail) && segs != [] && pos < next <= pos + |segs[0].text|
    ensures var rest := Later(segs, next - pos); IsLeft(s, next, rest, tail) && |rest| == |segs|
  {
    LaterIsSent(s, pos, segs, tail, next - pos);
    LaterIsReadable(segs, next - pos);
  }

  lemma RestIsLeft(s: string, pos: nat, segs: seq<Segment>, tail: string, next: nat)
    requires IsLeft(s, pos, segs, tail) && segs != [] && next <= |s| && s[next..] == Sent(segs[1..], tail)
    ensures IsLeft(s, next, segs[1..], tail)
  {
    LaterIsReadable(segs, 0);
  }

  /** One match on: the document that is left still has every mention, or has lost the first one to it. */
  lemma FirstStep(s: string, pos: nat, segs: seq<Segment>, tail: string, found: seq<Target>)
    returns (next: nat, rest: seq<Segment>)
    requires IsLeft(s, pos, segs, tail) && segs != [] && Finds(s, pos, found)
    ensures found != [] && Finds(s, next, found[1..]) && IsLeft(s, next, rest, tail)
    ensures |rest| == |segs| || (rest == segs[1..] && Quiet(segs[0].text, true))
  {
    next := FirstFound(s, pos, segs, tail, found);
    if pos < next <= pos + |segs[0].text| {
      LaterIsLeft(s, pos, segs, tail, next);
      rest := Later(segs, next - pos);
    } else {
      RestIsLeft(s, pos, segs, tail, next);
      rest := segs[1..];
    }
  }

  /** Every mention is found, whatever is found besides. */
  lemma {:induction false} FindsAtLeast(s: string, pos: nat, segs: seq<Segment>, tail: string, found: seq<Target>)
    requires IsLeft(s, pos, segs, tail) && Finds(s, pos, found)
    ensures |found| >= |segs|
    decreases |found|
  {
    if segs != [] {
      var next, rest := FirstStep(s, pos, segs, tail, found);
      FindsAtLeast(s, next, rest, tail, found[1..]);
    }
  }

  lemma TypedLater(segs: seq<Segment>, tail: string)
    requires segs != [] && Quiet(segs[0].text, true) && !NoTypedLinks(segs, tail)
    ensures !NoTypedLinks(segs[1..], tail)
  {
    assert segs == [segs[0]] + segs[1..];
  }

  /** Each typed link adds to what is found. */
  lemma {:induction false} TypedLinksAdd(s: string, pos: nat, segs: seq<Segment>, tail: string, found: seq<Target>)
    requires IsLeft(s, pos, segs, tail) && Finds(s, pos, found)
    requires !NoTypedLinks(segs, tail)
    ensures |found| > |segs|
    decreases |segs|
  {
    if segs == [] {
      NothingFound(s, pos);
      FoundIsMatch(s, pos, found);
    } else {
      var next, rest := FirstStep(s, pos, segs, tail, found);
      if |rest| == |segs| {
        FindsAtLeast(s, next, rest, tail, found[1..]);
      } else {
        TypedLater(segs, tail);
        TypedLinksAdd(s, next, rest, tail, found[1..]);
      }
    }
  }

  lemma {:induction false} TargetsCount(segs: seq<Segment>)
    ensures |Targets(segs)| == |segs|
  {
    if segs != [] {
      TargetsCount(segs[1..]);
    }
  }

  /** The server finds exactly the mentions' targets, in order, exactly when no link is typed in the
      text between them. */
  lemma FindsExactlyOwnTargets(segs: seq<Segment>, tail: string)
    requires Readable(segs)
    ensures Finds(Sent(segs, tail), 0, Targets(segs)) <==> NoTypedLinks(segs, tail)
  {
    var s := Sent(segs, tail);
    assert s[0..] == s;
    TargetsCount(segs);
    if NoTypedLinks(segs, tail) {
      FindsOwnTargets(s, 0, segs, tail);
    } else if Finds(s, 0, Targets(segs)) {
      TypedLinksAdd(s, 0, segs, tail, Targets(segs));
    }
  }

  /** From the composer to the server: of what is composed from left to right with one-word names the
      server finds exactly the picked targets, in order, exactly when no link was typed. */
  lemma ComposedMentionsAreFound(actions: seq<Action>)
    requires forall a :: a in actions ==> CleanAction(a)
    requires AllSpaceless(Composed(actions).segs) && Readable(Composed(actions).segs)
    ensures var s, d := Compose(actions), Composed(actions);
      Finds(Serialize(s.text, s.markers), 0, Targets(d.segs)) <==> NoTypedLinks(d.segs, d.tail)
  {
    var d := Composed(actions);
    ComposedTextIsLinkedExactlyWhenSpaceless(actions);
    LinkedIsSent(d.segs, d.tail);
    FindsExactlyOwnTargets(d.segs, d.tail);
  }

  /** A typed link is found like a picked one. */
  lemma TypedLinkIsFound(t: Target)
    requires IsTarget(t)
    ensures Finds("[x" + LinkEnd(t), 0, [t])
  {
    var s := "[" + "x" + LinkEnd(t);
    assert s == "[x" + LinkEnd(t);
    assert s[0..] == "" + ("[" + "x" + LinkEnd(t)) + "";
    Apart(s, 0, "", "x", LinkEnd(t), "");
    ShortIsQuiet("x");
    ShortIsQuiet("");
    OwnIsFirst(s, 0, "", "x", t);
    NothingFound(s, |s|);
    assert s[|s|..] == "";
    FindsThenNothing(s, 0, t, |s|);
  }

  lemma ShortIsQuiet(p: string)
    requires |p| <= 1
    ensures NoLinkEnds(p) && Quiet(p, true) && Quiet(p, false)
  {
    forall j, t
      ensures !EndAt(p, j, t)
    {
      assert |LinkEnd(t)| > 1;
    }
  }

  lemma FindsThenNothing(s: string, pos: nat, t: Target, next: nat)
    requires FirstEndsAt(s, pos, t, next) && NoMatch(s, next)
    ensures Finds(s, pos, [t])
  {
    assert [t][1..] == [];
    assert Finds(s, next, [t][1..]);
    assert FirstEndsAt(s, pos, [t][0], next);
  }
}
