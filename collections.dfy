/** The sequence operations the correctors chain together: removing
    duplicates (keeping first occurrences, as `Distinct` and `Union` do) and
    keeping a prefix (as `Take` does). */
module Collections {

  /** No element occurs twice. */
  ghost predicate NoDup<T>(s: seq<T>) {
    forall i, j :: 0 <= i < j < |s| ==> s[i] != s[j]
  }

  /** `s` without repeats: each element at its first occurrence, in order. */
  function Distinct<T(==,!new)>(s: seq<T>): (r: seq<T>)
    ensures forall x :: x in r <==> x in s
    ensures NoDup(r) && |r| <= |s|
    decreases |s|
  {
    if s == [] then []
    else
      var front := Distinct(s[..|s| - 1]);
      assert forall x :: x in s <==> x in s[..|s| - 1] || x == s[|s| - 1] by {
        assert s == s[..|s| - 1] + [s[|s| - 1]];
      }
      if s[|s| - 1] in front then front else front + [s[|s| - 1]]
  }

  /** `Union` of two sequences: the elements of both, each once, first
      occurrences first. */
  function Union<T(==,!new)>(a: seq<T>, b: seq<T>): (r: seq<T>)
    ensures forall x :: x in r <==> x in a || x in b
    ensures NoDup(r)
  {
    Distinct(a + b)
  }

  /** The first `k` elements, or all of them when there are fewer; none when
      `k` is not positive. */
  function Take<T>(s: seq<T>, k: int): (r: seq<T>)
    ensures |r| == if k <= 0 then 0 else if k < |s| then k else |s|
    ensures forall i :: 0 <= i < |r| ==> r[i] == s[i]
  {
    if k <= 0 then [] else if k < |s| then s[..k] else s
  }

  /** A repeat-free sequence is no longer than any sequence holding all its
      elements. */
  lemma {:induction false} NoDupShorter<T>(a: seq<T>, b: seq<T>)
    requires NoDup(b) && forall x :: x in b ==> x in a
    ensures |b| <= |a|
    decreases |b|
  {
    if b != [] {
      var x := b[|b| - 1];
      assert x in b;
      var i :| 0 <= i < |a| && a[i] == x;
      var a' := a[..i] + a[i + 1..];
      var b' := b[..|b| - 1];
      assert NoDup(b');
      forall y | y in b' ensures y in a' {
        var m :| 0 <= m < |b'| && b'[m] == y;
        assert b[m] == y && y != x && y in a;
        var n :| 0 <= n < |a| && a[n] == y;
        if n < i { assert a'[n] == y; } else { assert a'[n - 1] == y; }
      }
      NoDupShorter(a', b');
    }
  }

  /** Two repeat-free sequences with the same elements have the same length. */
  lemma SameElementsSameLength<T>(a: seq<T>, b: seq<T>)
    requires NoDup(a) && NoDup(b) && forall x :: x in a <==> x in b
    ensures |a| == |b|
  {
    NoDupShorter(a, b);
    NoDupShorter(b, a);
  }

  /** A repeat-free sequence whose only element is `w` is `[w]`. */
  lemma Single<T>(s: seq<T>, w: T)
    requires NoDup(s) && forall x :: x in s <==> x == w
    ensures s == [w]
  {
    SameElementsSameLength(s, [w]);
    assert s[0] in s;
  }

  /** A repeat-free sequence has as many elements as the set of its elements. */
  lemma {:induction false} NoDupCardinality<T>(s: seq<T>)
    requires NoDup(s)
    ensures |(set x | x in s)| == |s|
    decreases |s|
  {
    if s != [] {
      var init := s[..|s| - 1];
      var last := s[|s| - 1];
      assert NoDup(init);
      NoDupCardinality(init);
      assert last !in init;
      assert s == init + [last];
      assert (set x | x in s) == (set x | x in init) + {last};
    }
  }

  /** Concatenation is associative (stated once, so that proofs over long
      concatenations need not rediscover it). */
  lemma ConcatAssoc<T>(x: seq<T>, y: seq<T>, z: seq<T>)
    ensures x + (y + z) == (x + y) + z
  {
  }
}
