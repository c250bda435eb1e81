/** The ranking both correctors end with: order the candidates by
    descending dictionary count (a stable sort, like `orderby … descending`)
    and keep the first `maxOptionsNumber`. */
module Ranking {
  import opened Collections

  /** A candidate's weight: its count in the dictionary, 0 when it is missing. */
  function CountOf(counts: map<string, int>, w: string): int {
    if w in counts then counts[w] else 0
  }

  /** Counts never increase along `s`. */
  ghost predicate ByCount(counts: map<string, int>, s: seq<string>) {
    forall i, j :: 0 <= i < j < |s| ==> CountOf(counts, s[i]) >= CountOf(counts, s[j])
  }

  /** Inserts `x` into `s` after every element whose count is at least `x`'s,
      so that among equal counts the earlier input stays first. */
  function InsertByCount(counts: map<string, int>, x: string, s: seq<string>): (r: seq<string>)
    ensures multiset(r) == multiset(s) + multiset{x}
  {
    if s == [] then [x]
    else if CountOf(counts, s[0]) >= CountOf(counts, x) then
      assert s == [s[0]] + s[1..];
      [s[0]] + InsertByCount(counts, x, s[1..])
    else
      [x] + s
  }

  /** Inserting into an ordered sequence keeps it ordered. */
  lemma {:induction false} InsertKeepsOrder(counts: map<string, int>, x: string, s: seq<string>)
    requires ByCount(counts, s)
    ensures ByCount(counts, InsertByCount(counts, x, s))
    decreases |s|
  {
    if s != [] && CountOf(counts, s[0]) >= CountOf(counts, x) {
      var tail := InsertByCount(counts, x, s[1..]);
      InsertKeepsOrder(counts, x, s[1..]);
      HeadFirst(counts, x, s, tail);
      var r := [s[0]] + tail;
      forall i, j | 0 <= i < j < |r| ensures CountOf(counts, r[i]) >= CountOf(counts, r[j]) {
        if i == 0 {
          assert r[j] == tail[j - 1];
        } else {
          assert r[i] == tail[i - 1] && r[j] == tail[j - 1];
        }
      }
    }
  }

  /** The first element of an ordered sequence outweighs everything after
      it, and so everything the insertion puts after it. */
  lemma HeadFirst(counts: map<string, int>, x: string, s: seq<string>, tail: seq<string>)
    requires s != [] && ByCount(counts, s) && CountOf(counts, s[0]) >= CountOf(counts, x)
    requires multiset(tail) == multiset(s[1..]) + multiset{x}
    ensures forall j :: 0 <= j < |tail| ==> CountOf(counts, s[0]) >= CountOf(counts, tail[j])
  {
    forall j | 0 <= j < |tail| ensures CountOf(counts, s[0]) >= CountOf(counts, tail[j]) {
      var y := tail[j];
      assert y in multiset(tail);
      if y != x {
        assert y in multiset(s[1..]);
        var m :| 0 <= m < |s[1..]| && s[1..][m] == y;
        assert s[m + 1] == y;
      }
    }
  }

  function SortByCount(counts: map<string, int>, s: seq<string>): (r: seq<string>)
    ensures ByCount(counts, r)
    ensures multiset(r) == multiset(s)
    decreases |s|
  {
    if s == [] then []
    else
      var init := s[..|s| - 1];
      assert s == init + [s[|s| - 1]];
      var sorted := SortByCount(counts, init);
      InsertKeepsOrder(counts, s[|s| - 1], sorted);
      InsertByCount(counts, s[|s| - 1], sorted)
  }

  /** A sequence has no repeats exactly when no element occurs twice in its
      multiset; so a permutation of a repeat-free sequence is repeat-free. */
  lemma {:induction false} NoDupMultiset<T>(s: seq<T>)
    ensures NoDup(s) <==> forall x :: multiset(s)[x] <= 1
    decreases |s|
  {
    if s != [] {
      var init := s[..|s| - 1];
      var last := s[|s| - 1];
      assert s == init + [last];
      NoDupMultiset(init);
      if NoDup(s) {
        assert NoDup(init);
        assert last !in init;
        forall x ensures multiset(s)[x] <= 1 {
          assert multiset(s)[x] == multiset(init)[x] + (if x == last then 1 else 0);
        }
      } else {
        var i, j :| 0 <= i < j < |s| && s[i] == s[j];
        if j < |s| - 1 {
          assert init[i] == init[j] && !NoDup(init);
          var z :| multiset(init)[z] > 1;
          assert multiset(s)[z] == multiset(init)[z] + (if z == last then 1 else 0);
        } else {
          assert s[i] == last && last in init;
          assert multiset(s)[last] == multiset(init)[last] + 1;
        }
      }
    }
  }

  /** The final answer: the candidates by descending count, cut to `k`. */
  function Rank(counts: map<string, int>, candidates: seq<string>, k: int): (r: seq<string>)
    ensures |r| == if k <= 0 then 0 else if k < |candidates| then k else |candidates|
    ensures ByCount(counts, r)
    ensures forall x :: x in r ==> x in candidates
    ensures NoDup(candidates) ==> NoDup(r)
    ensures forall x, y :: x in candidates && x !in r && y in r ==> CountOf(counts, x) <= CountOf(counts, y)
  {
    var sorted := SortByCount(counts, candidates);
    PermutationFacts(candidates, sorted);
    TopOfSorted(counts, candidates, sorted, k);
    Take(sorted, k)
  }

  /** A permutation has the same length and elements, and keeps a sequence
      repeat-free. */
  lemma PermutationFacts(s: seq<string>, t: seq<string>)
    requires multiset(t) == multiset(s)
    ensures |t| == |s| && forall x :: x in t <==> x in s
    ensures NoDup(s) ==> NoDup(t)
  {
    assert |multiset(t)| == |multiset(s)|;
    assert forall x :: x in t <==> x in multiset(t);
    if NoDup(s) {
      NoDupMultiset(s);
      NoDupMultiset(t);
    }
  }

  /** Whatever an ordered permutation's first `k` leave out weighs no more
      than what they keep. */
  lemma TopOfSorted(counts: map<string, int>, s: seq<string>, sorted: seq<string>, k: int)
    requires ByCount(counts, sorted) && forall x :: x in sorted <==> x in s
    ensures forall x, y :: x in s && x !in Take(sorted, k) && y in Take(sorted, k) ==> CountOf(counts, x) <= CountOf(counts, y)
    ensures ByCount(counts, Take(sorted, k))
  {
    var r := Take(sorted, k);
    forall x, y | x in s && x !in r && y in r
      ensures CountOf(counts, x) <= CountOf(counts, y)
    {
      var m :| 0 <= m < |sorted| && sorted[m] == x;
      var n :| 0 <= n < |r| && r[n] == y;
      assert m >= |r| by {
        assert forall i :: 0 <= i < |r| ==> r[i] == sorted[i];
      }
    }
  }
}
