/** The links the composer writes are the links the server reads. */
module MentionLinks {
  import opened MentionText

  const KINDS: seq<string> := ["member", "agent", "squad", "issue", "all"]

  predicate IsHexOrDash(c: char) {
    '0' <= c <= '9' || 'a' <= c <= 'f' || 'A' <= c <= 'F' || c == '-'
  }

  predicate IsServerId(id: string) {
    id == "all" || (id != "" && forall k :: 0 <= k < |id| ==> IsHexOrDash(id[k]))
  }

  /** The ids the server reads: `all`, or hexadecimal digits and dashes, at least one. */
  lemma ServerIdsLetterByLetter(id: string)
    ensures IsServerId(id) <==>
      id == "all" || (|id| > 0 && forall c :: c in id ==> c in "0123456789abcdefABCDEF-")
  {
    forall c: char
      ensures c in "0123456789abcdefABCDEF-" <==> IsHexOrDash(c)
    {
    }
  }

  function LinkWith(caption: string, kind: string, id: string): string {
    "[" + caption + "](mention://" + kind + "/" + id + ")"
  }

  /** What the pattern's `.+?`, with an optional `@` in front, matches: at least one character, no newline. */
  predicate IsCaption(caption: string) {
    caption != "" && '\n' !in caption
  }

  /** The server's pattern matches `s` as a whole, capturing `kind` and `id`. */
  ghost predicate ServerReads(s: string, kind: string, id: string) {
    && kind in KINDS && IsServerId(id)
    && exists caption :: IsCaption(caption) && s == LinkWith(caption, kind, id)
  }

  // ----- taking a link apart ----------------------------------------------------------------

  lemma NoLaterSlash(q: string, y: string, k: nat)
    requires '/' !in y && k < |q + ['/'] + y| && (q + ['/'] + y)[k] == '/'
    ensures k <= |q|
  {
  }

  lemma LastSlash(p: string, x: string, q: string, y: string)
    requires p + ['/'] + x == q + ['/'] + y && '/' !in x && '/' !in y
    ensures p == q && x == y
  {
    var s, t := p + ['/'] + x, q + ['/'] + y;
    assert s[|p|] == '/' && t[|q|] == '/';
    NoLaterSlash(q, y, |p|);
    NoLaterSlash(p, x, |q|);
    assert s[..|p|] == p && t[..|q|] == q && s[|p| + 1..] == x && t[|q| + 1..] == y;
  }

  function Opening(caption: string): string {
    "[" + caption + "](mention:/"
  }

  lemma LinkShape(caption: string, kind: string, id: string)
    ensures LinkWith(caption, kind, id) == (Opening(caption) + ['/'] + kind) + ['/'] + (id + ")")
  {
    assert "](mention://" == "](mention:/" + ['/'];
    assert "[" + caption + "](mention://" == Opening(caption) + ['/'];
  }

  lemma OpeningIsInjective(a: string, b: string)
    requires Opening(a) == Opening(b)
    ensures a == b
  {
    assert Opening(a)[1..1 + |a|] == a && Opening(b)[1..1 + |b|] == b;
  }

  lemma IdHasNoSlash(id: string)
    requires IsServerId(id)
    ensures '/' !in id + ")"
  {
  }

  lemma KindHasNoSlash(kind: string)
    requires kind in KINDS
    ensures '/' !in kind
  {
  }

  lemma LinkIsInjective(caption: string, kind: string, id: string, caption': string, kind': string, id': string)
    requires kind in KINDS && kind' in KINDS && IsServerId(id) && IsServerId(id')
    requires LinkWith(caption, kind, id) == LinkWith(caption', kind', id')
    ensures caption == caption' && kind == kind' && id == id'
  {
    LinkShape(caption, kind, id);
    LinkShape(caption', kind', id');
    IdHasNoSlash(id);
    IdHasNoSlash(id');
    LastSlash(Opening(caption) + ['/'] + kind, id + ")", Opening(caption') + ['/'] + kind', id' + ")");
    assert (id + ")")[..|id|] == id && (id' + ")")[..|id'|] == id';
    KindHasNoSlash(kind);
    KindHasNoSlash(kind');
    LastSlash(Opening(caption), kind, Opening(caption'), kind');
    OpeningIsInjective(caption, caption');
  }

  lemma KindIsKnown(k: MentionType)
    ensures KindName(k) in KINDS
  {
    match k
    case Member => assert KINDS[0] == KindName(k);
    case Agent => assert KINDS[1] == KindName(k);
    case Squad => assert KINDS[2] == KindName(k);
    case Issue => assert KINDS[3] == KindName(k);
    case All => assert KINDS[4] == KindName(k);
  }

  function Caption(m: Marker): string {
    if m.kind.Issue? then m.name else "@" + m.name
  }

  lemma RenderLinkIsLink(m: Marker)
    ensures RenderLink(m) == LinkWith(Caption(m), KindName(m.kind), m.id)
  {
  }

  /** Round trip: the server reads a rendered link exactly when its caption is not empty and the
      name has no newline, and then reads the mention's own kind and id and no other. */
  lemma ServerReadsExactlyTheMention(m: Marker, kind: string, id: string)
    requires IsServerId(m.id)
    ensures ServerReads(RenderLink(m), kind, id) <==>
      IsCaption(Caption(m)) && kind == KindName(m.kind) && id == m.id
    ensures IsCaption(Caption(m)) <==> (m.kind.Issue? ==> m.name != "") && '\n' !in m.name
  {
    RenderLinkIsLink(m);
    KindIsKnown(m.kind);
    if ServerReads(RenderLink(m), kind, id) {
      var caption :| IsCaption(caption) && RenderLink(m) == LinkWith(caption, kind, id);
      LinkIsInjective(caption, kind, id, Caption(m), KindName(m.kind), m.id);
    }
  }

  /** The links of the five kinds, letter by letter; an issue's caption goes without the `@`. */
  lemma LinksLetterByLetter(id: string, name: string)
    ensures RenderLink(Marker(Member, id, name)) == "[@" + name + "](mention://member/" + id + ")"
    ensures RenderLink(Marker(Agent, id, name)) == "[@" + name + "](mention://agent/" + id + ")"
    ensures RenderLink(Marker(Squad, id, name)) == "[@" + name + "](mention://squad/" + id + ")"
    ensures RenderLink(Marker(All, id, name)) == "[@" + name + "](mention://all/" + id + ")"
    ensures RenderLink(Marker(Issue, id, name)) == "[" + name + "](mention://issue/" + id + ")"
  {
    assert "[" + ("@" + name) == "[@" + name;
    assert "](mention://" + "member" + "/" == "](mention://member/";
    KindInLink("[@" + name, "member", id);
    KindInLink("[@" + name, "agent", id);
    KindInLink("[@" + name, "squad", id);
    KindInLink("[@" + name, "all", id);
    KindInLink("[" + name, "issue", id);
  }

  lemma KindInLink(front: string, kind: string, id: string)
    ensures front + "](mention://" + kind + "/" + id + ")" == front + ("](mention://" + kind + "/") + id + ")"
  {
  }
}
