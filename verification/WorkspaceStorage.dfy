/** Storage whose keys are namespaced by the current workspace slug. */
module WorkspaceStorage {
  import opened Prelude
  import opened WorkspaceContext

  function Namespaced(key: string, slug: string): string {
    key + [':'] + slug
  }

  datatype Op = Put(key: string, value: string) | Erase(key: string)

  /** Without a slug, or with an empty one, nothing is read. */
  function Read(items: map<string, string>, slug: Option<string>, key: string): Option<string> {
    if Truthy(slug) && Namespaced(key, slug.value) in items then Some(items[Namespaced(key, slug.value)]) else None
  }

  /** Without a slug, or with an empty one, writes are dropped. */
  function Apply(items: map<string, string>, slug: Option<string>, op: Op): map<string, string> {
    if !Truthy(slug) then items
    else match op
      case Put(key, value) => items[Namespaced(key, slug.value) := value]
      case Erase(key) => items - {Namespaced(key, slug.value)}
  }

  lemma KeysDiffer(k: string, l: string, slug: string)
    requires k != l
    ensures Namespaced(k, slug) != Namespaced(l, slug)
  {
    if |k| == |l| {
      assert Namespaced(k, slug)[..|k|] == k && Namespaced(l, slug)[..|l|] == l;
    }
  }

  /** Under a slug, reading gives what was last put under the key, nothing after an erase, and what was there
      under every other key. Without a slug nothing is read and nothing is stored. */
  lemma ReadsWhatWasPut(items: map<string, string>, slug: Option<string>, key: string, value: string, other: string)
    ensures Truthy(slug) ==>
      && Read(Apply(items, slug, Put(key, value)), slug, key) == Some(value)
      && Read(Apply(items, slug, Erase(key)), slug, key) == None
    ensures other != key ==>
      && Read(Apply(items, slug, Put(key, value)), slug, other) == Read(items, slug, other)
      && Read(Apply(items, slug, Erase(key)), slug, other) == Read(items, slug, other)
    ensures !Truthy(slug) ==>
      && Read(items, slug, key) == None
      && Apply(items, slug, Put(key, value)) == items && Apply(items, slug, Erase(key)) == items
  {
    if Truthy(slug) && other != key {
      KeysDiffer(key, other, slug.value);
    }
  }

  // ----- when two slugs share a key --------------------------------------------------------

  /** `t` is something, a colon, and then `s`. */
  predicate Extends(t: string, s: string) {
    |t| > |s| && t[|t| - |s| - 1] == ':' && t[|t| - |s|..] == s
  }

  ghost predicate ShareKey(s: string, t: string) {
    exists k, l :: Namespaced(k, s) == Namespaced(l, t)
  }

  lemma SameKey(k: string, s: string, l: string, t: string)
    requires Namespaced(k, s) == Namespaced(l, t) && |s| <= |t|
    ensures if |s| == |t| then k == l && s == t else Extends(t, s)
  {
    var x, y := Namespaced(k, s), Namespaced(l, t);
    assert x[|k|] == ':' && x[|k| + 1..] == s && x[..|k|] == k;
    assert y[|l|] == ':' && y[|l| + 1..] == t && y[..|l|] == l;
    if |s| < |t| {
      assert t[|t| - |s|..] == y[|y| - |s|..];
    }
  }

  lemma ExtendingSharesKey(t: string, s: string)
    requires Extends(t, s)
    ensures ShareKey(s, t)
  {
    var u := t[..|t| - |s| - 1];
    assert t == u + [':'] + s;
    assert Namespaced([':'] + u, s) == Namespaced([], t);
  }

  lemma ShareKeyIsSymmetric(s: string, t: string)
    requires ShareKey(s, t)
    ensures ShareKey(t, s)
  {
    var k, l :| Namespaced(k, s) == Namespaced(l, t);
    assert Namespaced(l, t) == Namespaced(k, s);
  }

  lemma ShareKeyExactly(s: string, t: string)
    ensures ShareKey(s, t) <==> s == t || Extends(s, t) || Extends(t, s)
  {
    if ShareKey(s, t) {
      var k, l :| Namespaced(k, s) == Namespaced(l, t);
      if |s| <= |t| { SameKey(k, s, l, t); } else { SameKey(l, t, k, s); }
    }
    if s == t {
      assert Namespaced([], s) == Namespaced([], t);
    }
    if Extends(t, s) {
      ExtendingSharesKey(t, s);
    }
    if Extends(s, t) {
      ExtendingSharesKey(s, t);
      ShareKeyIsSymmetric(t, s);
    }
  }

  ghost predicate Untouched(items: map<string, string>, s: Option<string>, op: Op, t: Option<string>, key: string) {
    Read(Apply(items, s, op), t, key) == Read(items, t, key)
  }

  /** No operation under `s` changes what any key reads under `t`. */
  ghost predicate Isolated(s: Option<string>, t: Option<string>) {
    forall items, op, key :: Untouched(items, s, op, t, key)
  }

  /** Two workspaces are isolated exactly when neither slug ends in a colon and the other. */
  lemma IsolatedExactlyWhenNoSuffix(s: string, t: string)
    requires s != "" && t != "" && s != t
    ensures Isolated(Some(s), Some(t)) <==> !Extends(s, t) && !Extends(t, s)
  {
    ShareKeyExactly(s, t);
    if ShareKey(s, t) {
      var k, l :| Namespaced(k, s) == Namespaced(l, t);
      assert !Untouched(map[], Some(s), Put(k, ""), Some(t), l);
    }
  }

  ghost predicate ColonFree(slug: Option<string>) {
    slug.Some? ==> ':' !in slug.value
  }

  lemma ColonFreeIsolated(s: Option<string>, t: Option<string>)
    requires ColonFree(s) && ColonFree(t) && s != t
    ensures Isolated(s, t)
  {
    if Truthy(s) && Truthy(t) {
      IsolatedExactlyWhenNoSuffix(s.value, t.value);
    }
  }

  /** A slug with a colon can reach into another workspace. */
  lemma ColonSlugsInterfere()
    ensures !Isolated(Some("a"), Some("b:a"))
  {
    var t := "b:a";
    assert t[1] == ':' && t[2..] == "a";
    IsolatedExactlyWhenNoSuffix("a", t);
  }

  predicate IsSlugChar(c: char) {
    'a' <= c <= 'z' || '0' <= c <= '9' || c == '-'
  }

  /** The slugs the server accepts: words of lower-case letters and digits joined by single dashes. */
  predicate IsServerSlug(s: string) {
    && s != "" && s[0] != '-' && s[|s| - 1] != '-'
    && (forall k :: 0 <= k < |s| ==> IsSlugChar(s[k]))
    && (forall k :: 0 < k < |s| && s[k - 1] == '-' ==> s[k] != '-')
  }

  const SLUG_LETTERS := "abcdefghijklmnopqrstuvwxyz0123456789"

  lemma SlugLetters(c: char)
    ensures c in SLUG_LETTERS <==> IsSlugChar(c) && c != '-'
  {
  }

  ghost predicate IsSlugWord(s: string) {
    s != "" && forall c :: c in s ==> c in SLUG_LETTERS
  }

  lemma WordHasNoDash(s: string)
    ensures IsSlugWord(s) <==> s != "" && forall k :: 0 <= k < |s| ==> IsSlugChar(s[k]) && s[k] != '-'
  {
    forall c
      ensures c in SLUG_LETTERS <==> IsSlugChar(c) && c != '-'
    {
      SlugLetters(c);
    }
  }

  /** The pattern's own shape: a word, or a word, a dash, and again a slug. */
  lemma SlugIsWordsAndDashes(s: string)
    ensures IsServerSlug(s) <==> IsSlugWord(s) || exists k :: WordThenSlug(s, k)
  {
    WordHasNoDash(s);
    if IsServerSlug(s) && !IsSlugWord(s) {
      var k := FirstDash(s);
      SplitAtDash(s, k);
    }
    if k :| WordThenSlug(s, k) {
      JoinedIsSlug(s, k);
    }
  }

  ghost predicate WordThenSlug(s: string, k: int) {
    0 < k < |s| && s[k] == '-' && IsSlugWord(s[..k]) && IsServerSlug(s[k + 1..])
  }

  lemma FirstDash(s: string) returns (k: nat)
    requires IsServerSlug(s) && !IsSlugWord(s)
    ensures 0 < k < |s| - 1 && s[k] == '-' && forall j :: 0 <= j < k ==> s[j] != '-'
  {
    WordHasNoDash(s);
    k := 0;
    while k < |s| && s[k] != '-'
      invariant k <= |s| && forall j :: 0 <= j < k ==> s[j] != '-'
    {
      k := k + 1;
    }
  }

  lemma Shifted(s: string, k: nat, j: nat)
    requires k + j < |s|
    ensures s[k..][j] == s[k + j]
  {
  }

  lemma SplitAtDash(s: string, k: nat)
    requires IsServerSlug(s) && 0 < k < |s| - 1 && s[k] == '-' && forall j :: 0 <= j < k ==> s[j] != '-'
    ensures WordThenSlug(s, k)
  {
    var rest := s[k + 1..];
    WordHasNoDash(s[..k]);
    forall j | 0 <= j < |rest|
      ensures IsSlugChar(rest[j]) && (j > 0 && rest[j - 1] == '-' ==> rest[j] != '-')
    {
      Shifted(s, k + 1, j);
      if j > 0 { Shifted(s, k + 1, j - 1); }
    }
    Shifted(s, k + 1, 0);
    Shifted(s, k + 1, |rest| - 1);
  }

  lemma JoinedIsSlug(s: string, k: nat)
    requires WordThenSlug(s, k)
    ensures IsServerSlug(s)
  {
    WordHasNoDash(s[..k]);
    forall j | 0 <= j < |s|
      ensures IsSlugChar(s[j]) && (j > 0 && s[j - 1] == '-' ==> s[j] != '-')
    {
      assert j < k ==> s[..k][j] == s[j];
      assert j > 0 && j - 1 < k ==> s[..k][j - 1] == s[j - 1];
      if j > k { Shifted(s, k + 1, j - k - 1); }
      if j > k + 1 { Shifted(s, k + 1, j - k - 2); }
    }
    Shifted(s, k + 1, |s| - k - 2);
    assert s[..k][0] == s[0];
  }

  /** No server slug has a colon, so the server's workspaces are isolated from each other. */
  lemma ServerSlugsAreIsolated(s: string, t: string)
    requires IsServerSlug(s) && IsServerSlug(t) && s != t
    ensures ':' !in s && Isolated(Some(s), Some(t))
  {
    ColonFreeIsolated(Some(s), Some(t));
  }

  // ----- whole runs --------------------------------------------------------------------------

  /** Storage operations, each with the slug that was current when it was made. */
  type Log = seq<(Option<string>, Op)>

  function Replay(items: map<string, string>, log: Log): map<string, string> {
    if |log| == 0 then items else Apply(Replay(items, log[..|log| - 1]), log[|log| - 1].0, log[|log| - 1].1)
  }

  function Under(log: Log, slug: Option<string>): Log {
    if |log| == 0 then [] else
      var front := Under(log[..|log| - 1], slug);
      if log[|log| - 1].0 == slug then front + [log[|log| - 1]] else front
  }

  /** The operations made under a slug are the log's own with that slug, in its order. */
  lemma {:induction false} UnderFollows(log: Log, slug: Option<string>)
    ensures Follows(log, Under(log, slug)) && forall p :: p in Under(log, slug) <==> p in log && p.0 == slug
  {
    if |log| > 0 {
      var front := log[..|log| - 1];
      UnderFollows(front, slug);
      FollowsSnoc(front, Under(front, slug), log[|log| - 1]);
      SplitLast(log);
    }
  }

  /** Replaying is making the operations one after the other. */
  lemma ReplaySnoc(items: map<string, string>, log: Log, slug: Option<string>, op: Op)
    ensures Replay(items, []) == items && Replay(items, log + [(slug, op)]) == Apply(Replay(items, log), slug, op)
  {
    DropLast(log, (slug, op));
  }

  lemma SameOpSameRead(a: map<string, string>, b: map<string, string>, slug: Option<string>, op: Op, key: string)
    requires forall k :: Read(a, slug, k) == Read(b, slug, k)
    ensures Read(Apply(a, slug, op), slug, key) == Read(Apply(b, slug, op), slug, key)
  {
    assert Read(a, slug, key) == Read(b, slug, key);
    if Truthy(slug) && Namespaced(key, slug.value) == Namespaced(op.key, slug.value) {
      SameKey(key, slug.value, op.key, slug.value);
    }
  }

  /** With colon-free slugs, what a workspace reads after any run of operations is what its own
      operations alone would have left. */
  lemma {:induction false} WorkspacesDoNotInterfere(items: map<string, string>, log: Log, slug: Option<string>,
                                                    key: string)
    requires ColonFree(slug) && forall p :: p in log ==> ColonFree(p.0)
    ensures Read(Replay(items, log), slug, key) == Read(Replay(items, Under(log, slug)), slug, key)
  {
    if |log| > 0 {
      var front, last := log[..|log| - 1], log[|log| - 1];
      forall k
        ensures Read(Replay(items, front), slug, k) == Read(Replay(items, Under(front, slug)), slug, k)
      {
        WorkspacesDoNotInterfere(items, front, slug, k);
      }
      assert last in log;
      if last.0 == slug {
        DropLast(Under(front, slug), last);
        SameOpSameRead(Replay(items, front), Replay(items, Under(front, slug)), slug, last.1, key);
      } else {
        ColonFreeIsolated(last.0, slug);
        assert Untouched(Replay(items, front), last.0, last.1, slug, key);
      }
    }
  }

  // ----- the storage object -------------------------------------------------------------------

  class WorkspaceAwareStorage {
    const workspace: Workspace
    var items: map<string, string>

    constructor (workspace: Workspace, items: map<string, string>)
      ensures this.workspace == workspace && this.items == items
    {
      this.workspace, this.items := workspace, items;
    }

    method GetItem(key: string) returns (value: Option<string>)
      ensures value == Read(items, workspace.currentSlug, key)
    {
      var slug := workspace.currentSlug;
      if Truthy(slug) && Namespaced(key, slug.value) in items {
        return Some(items[Namespaced(key, slug.value)]);
      }
      return None;
    }

    method SetItem(key: string, value: string)
      modifies this
      ensures items == Apply(old(items), workspace.currentSlug, Put(key, value))
    {
      if Truthy(workspace.currentSlug) {
        items := items[Namespaced(key, workspace.currentSlug.value) := value];
      }
    }

    method RemoveItem(key: string)
      modifies this
      ensures items == Apply(old(items), workspace.currentSlug, Erase(key))
    {
      if Truthy(workspace.currentSlug) {
        items := items - {Namespaced(key, workspace.currentSlug.value)};
      }
    }
  }
}
