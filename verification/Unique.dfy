/** Ruby's `Array#uniq` and `Array#|`. */
module Unique {
  import opened Sequences

  /** The elements in order of first appearance, each once. */
  function Uniq<T(==)>(s: seq<T>): (u: seq<T>)
    ensures |u| <= |s|
    ensures SameElements(u, s)
    ensures NoDuplicates(u)
  {
    if s == [] then []
    else
      var u, last := Uniq(s[..|s| - 1]), s[|s| - 1];
      assert s == s[..|s| - 1] + [last];
      if last in u then u else u + [last]
  }

  ghost predicate SameElements<T>(s: seq<T>, t: seq<T>) {
    (forall i :: 0 <= i < |s| ==> s[i] in t) && (forall i :: 0 <= i < |t| ==> t[i] in s)
  }

  ghost predicate NoDuplicates<T>(s: seq<T>) {
    forall i, j :: 0 <= i < j < |s| ==> s[i] != s[j]
  }

  /** `a | b`. */
  function Union<T(==)>(a: seq<T>, b: seq<T>): (u: seq<T>)
    ensures NoDuplicates(u)
    ensures SameElements(u, a + b)
  {
    Uniq(a + b)
  }

  /** Where an element first appears. */
  function FirstIndex<T(==)>(s: seq<T>, x: T): (i: nat)
    requires x in s
    ensures i < |s| && s[i] == x && x !in s[..i]
  {
    if s[0] == x then 0
    else
      assert x in s[1..];
      var i := 1 + FirstIndex(s[1..], x);
      PrefixOfTail(s, i);
      i
  }

  lemma PrefixOfTail<T>(s: seq<T>, i: nat)
    requires 0 < i <= |s|
    ensures s[..i] == [s[0]] + s[1..][..i - 1]
  {
    forall k | 0 <= k < i
      ensures s[..i][k] == ([s[0]] + s[1..][..i - 1])[k]
    {
    }
  }

  lemma {:induction false} FirstIndexIs<T>(s: seq<T>, x: T, i: nat)
    requires i < |s| && s[i] == x && x !in s[..i]
    ensures FirstIndex(s, x) == i
  {
    if i > 0 {
      PrefixOfTail(s, i);
      FirstIndexIs(s[1..], x, i - 1);
    }
  }

  lemma FirstIndexInPrefix<T>(s: seq<T>, last: T, x: T)
    requires x in s
    ensures FirstIndex(s + [last], x) == FirstIndex(s, x)
  {
    var i := FirstIndex(s, x);
    assert (s + [last])[..i] == s[..i];
    FirstIndexIs(s + [last], x, i);
  }

  /** The order of the result is the order of first appearance. */
  lemma {:induction false} UniqOrder<T>(s: seq<T>, i: nat, j: nat)
    requires i < j < |Uniq(s)|
    ensures FirstIndex(s, Uniq(s)[i]) < FirstIndex(s, Uniq(s)[j])
  {
    var t, last := s[..|s| - 1], s[|s| - 1];
    assert s == t + [last];
    var u := Uniq(t);
    if j < |u| {
      UniqOrder(t, i, j);
      FirstIndexInPrefix(t, last, u[i]);
      FirstIndexInPrefix(t, last, u[j]);
    } else {
      assert Uniq(s)[i] == u[i] && Uniq(s)[j] == last && last !in t;
      FirstIndexInPrefix(t, last, u[i]);
      assert last !in s[..|t|];
    }
  }

  /** A list without duplicates is left as it is. */
  lemma {:induction false} UniqIdentity<T>(s: seq<T>)
    requires NoDuplicates(s)
    ensures Uniq(s) == s
  {
    if s != [] {
      var t := s[..|s| - 1];
      UniqIdentity(t);
      assert s == t + [s[|s| - 1]];
    }
  }

  lemma UniqAppend<T>(s: seq<T>, x: T)
    ensures Uniq(s + [x]) == if x in s then Uniq(s) else Uniq(s) + [x]
  {
    assert (s + [x])[..|s|] == s;
  }

  /** Removing duplicates early makes no difference. */
  lemma {:induction false} UniqAbsorbs<T>(a: seq<T>, b: seq<T>)
    ensures Uniq(Uniq(a) + b) == Uniq(a + b)
  {
    hide Uniq, NoDuplicates;
    if b == [] {
      assert Uniq(a) + b == Uniq(a) && a + b == a;
      UniqIdentity(Uniq(a));
    } else {
      var c, x := b[..|b| - 1], b[|b| - 1];
      UniqAbsorbs(a, c);
      assert Uniq(a) + b == Uniq(a) + c + [x];
      assert a + b == a + c + [x];
      UniqAppend(Uniq(a) + c, x);
      UniqAppend(a + c, x);
      UniqMembers(a, x);
      hide SameElements;
      assert x in Uniq(a) + c <==> x in a + c;
    }
  }

  lemma UniqMembers<T>(s: seq<T>, x: T)
    ensures x in Uniq(s) <==> x in s
  {
  }

  /** A list united with one batch after another. */
  function UnionAll<T(==)>(start: seq<T>, batches: seq<seq<T>>): seq<T>
    decreases batches
  {
    if batches == [] then start else UnionAll(Union(start, batches[0]), batches[1..])
  }

  /** Any run of unions amounts to one union with everything; a run of none leaves duplicates where they are. */
  lemma {:induction false} UnionRun<T>(start: seq<T>, batches: seq<seq<T>>)
    requires NoDuplicates(start) || batches != []
    ensures UnionAll(start, batches) == Union(start, Concat(batches))
    decreases |batches|
  {
    hide Uniq, NoDuplicates, SameElements;
    if batches == [] {
      assert start + Concat(batches) == start;
      UniqIdentity(start);
    } else {
      UnionRun(Union(start, batches[0]), batches[1..]);
      UniqAbsorbs(start + batches[0], Concat(batches[1..]));
      assert start + batches[0] + Concat(batches[1..]) == start + Concat(batches);
    }
  }
}
