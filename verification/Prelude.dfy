/** The few notions every module shares: an optional value, JavaScript's
    truthiness of an optional string, and facts about sequences. */
module Prelude {
  datatype Option<+T> = None | Some(value: T)

  /** An absent, null or empty string is falsy. */
  predicate Truthy(o: Option<string>) {
    o.Some? && o.value != ""
  }

  function Min(a: int, b: int): int {
    if a < b then a else b
  }

  function Max(a: int, b: int): int {
    if a < b then b else a
  }

  ghost predicate NoDuplicates<T>(s: seq<T>) {
    forall i, j :: 0 <= i < j < |s| ==> s[i] != s[j]
  }

  lemma DropLast<T>(s: seq<T>, x: T)
    ensures (s + [x])[..|s|] == s && (s + [x])[|s|] == x
  {
  }

  lemma SplitLast<T>(s: seq<T>)
    requires |s| > 0
    ensures s == s[..|s| - 1] + [s[|s| - 1]]
  {
  }

  lemma NoDuplicatesConcat<T>(a: seq<T>, b: seq<T>)
    requires NoDuplicates(a) && NoDuplicates(b) && forall k :: 0 <= k < |b| ==> b[k] !in a
    ensures NoDuplicates(a + b)
  {
    forall i, j | 0 <= i < j < |a + b|
      ensures (a + b)[i] != (a + b)[j]
    {
      if i < |a| <= j {
        assert a[i] in a;
        assert b[j - |a|] !in a;
      }
    }
  }

  /** Distinct elements drawn from `b` are at most as many as `b` has positions. */
  lemma {:induction false} DistinctFit<T>(a: seq<T>, b: seq<T>)
    requires NoDuplicates(a) && forall x :: x in a ==> x in b
    ensures |a| <= |b|
  {
    if a != [] {
      var x := a[|a| - 1];
      assert x in a;
      var i :| 0 <= i < |b| && b[i] == x;
      var rest := b[..i] + b[i + 1..];
      forall y | y in a[..|a| - 1]
        ensures y in rest
      {
        assert y in b;
        var j :| 0 <= j < |b| && b[j] == y;
        assert y == if j < i then rest[j] else rest[j - 1];
      }
      DistinctFit(a[..|a| - 1], rest);
    }
  }

  lemma FitWithout<T>(a: seq<T>, b: seq<T>, x: T)
    requires NoDuplicates(a) && (forall y :: y in a ==> y in b) && x in b && x !in a
    ensures |a| < |b|
  {
    NoDuplicatesConcat(a, [x]);
    DistinctFit(a + [x], b);
  }

  lemma LastIsNew<T>(s: seq<T>)
    requires |s| > 0 && NoDuplicates(s)
    ensures s[|s| - 1] !in s[..|s| - 1] && NoDuplicates(s[..|s| - 1])
  {
  }

  /** The elements other than `x`, in order. */
  function Remove<T(==)>(s: seq<T>, x: T): seq<T> {
    if |s| == 0 then [] else
      var front := Remove(s[..|s| - 1], x);
      if s[|s| - 1] == x then front else front + [s[|s| - 1]]
  }

  lemma {:induction false} RemoveMembers<T>(s: seq<T>, x: T)
    ensures forall y :: y in Remove(s, x) <==> y in s && y != x
    ensures NoDuplicates(s) ==> NoDuplicates(Remove(s, x))
    ensures |Remove(s, x)| <= |s| && (x in s ==> |Remove(s, x)| < |s|)
  {
    if |s| > 0 {
      var front, last := s[..|s| - 1], s[|s| - 1];
      RemoveMembers(front, x);
      SplitLast(s);
      if NoDuplicates(s) && last != x {
        LastIsNew(s);
        NoDuplicatesConcat(Remove(front, x), [last]);
      }
    }
  }

  // ----- order -----------------------------------------------------------------------

  /** `x` stands somewhere before `y`. */
  ghost predicate Precedes<T>(all: seq<T>, x: T, y: T) {
    exists m, n :: 0 <= m < n < |all| && all[m] == x && all[n] == y
  }

  /** The elements of `part` stand in `all` in the same order. */
  ghost predicate Follows<T>(all: seq<T>, part: seq<T>) {
    forall i, j :: 0 <= i < j < |part| ==> Precedes(all, part[i], part[j])
  }

  lemma PrecedesSnoc<T>(all: seq<T>, last: T, x: T, y: T)
    ensures Precedes(all, x, y) ==> Precedes(all + [last], x, y)
    ensures x in all ==> Precedes(all + [last], x, last)
  {
    var longer := all + [last];
    if Precedes(all, x, y) {
      var m, n :| 0 <= m < n < |all| && all[m] == x && all[n] == y;
      assert longer[m] == x && longer[n] == y;
    }
    if x in all {
      var m :| 0 <= m < |all| && all[m] == x;
      assert longer[m] == x && longer[|all|] == last;
    }
  }

  lemma SelfFollows<T>(all: seq<T>)
    ensures Follows(all, all)
  {
    forall i, j | 0 <= i < j < |all|
      ensures Precedes(all, all[i], all[j])
    {
    }
  }

  /** One more element: skipped, or taken as the next. */
  lemma FollowsSnoc<T>(all: seq<T>, part: seq<T>, last: T)
    requires Follows(all, part) && forall x :: x in part ==> x in all
    ensures Follows(all + [last], part) && Follows(all + [last], part + [last])
  {
    var longer := part + [last];
    forall i, j | 0 <= i < j < |longer|
      ensures Precedes(all + [last], longer[i], longer[j])
    {
      assert part[i] in part;
      PrecedesSnoc(all, last, longer[i], longer[j]);
    }
    assert forall i, j :: 0 <= i < j < |part| ==> longer[i] == part[i] && longer[j] == part[j];
  }

  /** Removing keeps the order of the rest. */
  lemma {:induction false} RemoveFollows<T>(s: seq<T>, x: T)
    ensures Follows(s, Remove(s, x)) && forall y :: y in Remove(s, x) ==> y in s
  {
    if |s| > 0 {
      var front := s[..|s| - 1];
      RemoveFollows(front, x);
      FollowsSnoc(front, Remove(front, x), s[|s| - 1]);
      SplitLast(s);
    }
  }

  /** Of distinct elements, which ones are taken settles the list that takes them in order. */
  lemma {:induction false} InOrderIsUnique<T>(all: seq<T>, a: seq<T>, b: seq<T>)
    requires NoDuplicates(all) && Follows(all, a) && Follows(all, b) && NoDuplicates(a) && NoDuplicates(b)
    requires forall x :: x in a <==> x in b
    ensures a == b
  {
    assert (|a| > 0 ==> a[0] in b) && (|b| > 0 ==> b[0] in a);
    if a != [] {
      var m, n := |a| - 1, |b| - 1;
      assert a[m] in a && b[n] in b;
      LastAgrees(all, a, b);
      FrontIsInOrder(all, a);
      FrontIsInOrder(all, b);
      InOrderIsUnique(all, a[..m], b[..n]);
      SplitLast(a);
      SplitLast(b);
    }
  }

  lemma FrontIsInOrder<T>(all: seq<T>, part: seq<T>)
    requires Follows(all, part) && NoDuplicates(part) && |part| > 0
    ensures var m := |part| - 1;
      && Follows(all, part[..m]) && NoDuplicates(part[..m])
      && forall x :: x in part[..m] <==> x in part && x != part[m]
  {
    LastIsNew(part);
    SplitLast(part);
  }

  lemma LastAgrees<T>(all: seq<T>, a: seq<T>, b: seq<T>)
    requires NoDuplicates(all) && Follows(all, a) && Follows(all, b) && |a| > 0 && |b| > 0
    requires a[|a| - 1] in b && b[|b| - 1] in a
    ensures a[|a| - 1] == b[|b| - 1]
  {
    var x, y := a[|a| - 1], b[|b| - 1];
    var i :| 0 <= i < |a| && a[i] == y;
    var j :| 0 <= j < |b| && b[j] == x;
    if x != y {
      assert Precedes(all, y, x) && Precedes(all, x, y);
      NeverBothWays(all, x, y);
    }
  }

  lemma NeverBothWays<T>(all: seq<T>, x: T, y: T)
    requires NoDuplicates(all)
    ensures !(Precedes(all, x, y) && Precedes(all, y, x))
  {
  }
}
