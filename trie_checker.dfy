/** The trie-based corrector: it stores every dictionary word in a `Trie`
    and answers a query from the first tier that has enough words: the word
    itself, then the stored words the trie walk reaches with one edit, then
    with two. The dictionary is a map from word to count, read only. */
module TrieSpellChecking {
  import opened Collections
  import opened Ranking
  import opened EditWalk
  import opened Tries

  /** The words of `words` that the trie walk reaches from `s` within `d` edits. */
  ghost function SimilarWords(words: set<string>, s: string, d: int): set<string> {
    set x | x in words && Reachable(s, x, d)
  }

  /** The candidates of the last tier the corrector reaches for `k` answers:
      the word itself when it is a key, unless that gives fewer than `k`
      words; then the keys within one edit, unless fewer than `k`; then the
      keys within two edits. */
  ghost function TierOf(counts: map<string, int>, s: string, k: int): set<string> {
    var exact := if s in counts then {s} else {};
    if |exact| >= k then exact
    else if |SimilarWords(counts.Keys, s, 1)| >= k then SimilarWords(counts.Keys, s, 1)
    else SimilarWords(counts.Keys, s, 2)
  }

  /** Whatever tier is reached, its words are keys within two edits, and a
      key asked for with room for one answer is its own only candidate. */
  lemma TierWithinTwo(counts: map<string, int>, s: string, k: int)
    ensures forall x :: x in TierOf(counts, s, k) ==> x in counts && Reachable(s, x, 2)
    ensures s in counts && k == 1 ==> TierOf(counts, s, k) == {s}
  {
    forall x | x in TierOf(counts, s, k) ensures x in counts && Reachable(s, x, 2) {
      if x == s {
        ReachableSelf(s, 2);
      } else if Reachable(s, x, 1) {
        ReachableMonotone(s, x, 1, 2);
      }
    }
  }

  /** Ranking a repeat-free listing of the tier reached keeps the best
      `k` of its words, each a key within two edits. */
  lemma RankedTier(counts: map<string, int>, s: string, k: int, candidates: seq<string>)
    requires NoDup(candidates) && (set x | x in candidates) == TierOf(counts, s, k)
    requires |candidates| == |TierOf(counts, s, k)|
    ensures var r := Rank(counts, candidates, k);
      && |r| == (if k <= 0 then 0 else if k < |TierOf(counts, s, k)| then k else |TierOf(counts, s, k)|)
      && NoDup(r) && ByCount(counts, r)
      && (forall x :: x in r ==> x in TierOf(counts, s, k))
      && (forall x, y :: x in TierOf(counts, s, k) && x !in r && y in r ==> CountOf(counts, x) <= CountOf(counts, y))
      && (forall x :: x in r ==> x in counts && Reachable(s, x, 2))
      && (s in counts && k == 1 ==> r == [s])
  {
    var r := Rank(counts, candidates, k);
    assert forall x :: x in candidates <==> x in TierOf(counts, s, k) by {
      forall x ensures x in candidates <==> x in TierOf(counts, s, k) {
        assert x in candidates <==> x in (set y | y in candidates);
      }
    }
    TierWithinTwo(counts, s, k);
    if s in counts && k == 1 {
      assert |r| == 1 && r[0] in r;
    }
  }

  /** The tier the corrector stops at, by the sizes of the tiers before it. */
  lemma TierExact(counts: map<string, int>, s: string, k: int)
    requires |(if s in counts then {s} else {})| >= k
    ensures TierOf(counts, s, k) == if s in counts then {s} else {}
  {
  }

  lemma TierOne(counts: map<string, int>, s: string, k: int)
    requires |(if s in counts then {s} else {})| < k <= |SimilarWords(counts.Keys, s, 1)|
    ensures TierOf(counts, s, k) == SimilarWords(counts.Keys, s, 1)
  {
  }

  lemma TierTwo(counts: map<string, int>, s: string, k: int)
    requires |(if s in counts then {s} else {})| < k && |SimilarWords(counts.Keys, s, 1)| < k
    ensures TierOf(counts, s, k) == SimilarWords(counts.Keys, s, 2)
  {
  }

  class TrieSpellChecker {
    /** The dictionary: each word with its number of occurrences. */
    const wordsCount: map<string, int>
    /** The trie holding every word of the dictionary. */
    const trie: Trie

    ghost predicate Valid()
      reads trie, trie.Repr
    {
      trie.Valid() && trie.Words() == wordsCount.Keys
    }

    /** Builds the trie by inserting the dictionary's words one at a time,
        in whatever order the dictionary yields them. */
    constructor (counts: map<string, int>)
      ensures Valid() && wordsCount == counts && fresh(trie) && fresh(trie.Repr)
    {
      wordsCount := counts;
      trie := new Trie();
      new;
      var left := counts.Keys;
      while left != {}
        invariant trie.Valid() && fresh(trie) && fresh(trie.Repr)
        invariant left <= counts.Keys && trie.Words() == counts.Keys - left
        decreases left
      {
        var w :| w in left;
        trie.Insert(w);
        assert counts.Keys - (left - {w}) == (counts.Keys - left) + {w};
        left := left - {w};
      }
    }

    /** The corrections: at most `maxOptionsNumber` words of the tier
        reached, each once, by non-increasing count; no word of that tier
        left out counts more than a word kept. */
    method GetCorrections(str: string, maxOptionsNumber: int) returns (r: seq<string>)
      requires Valid()
      ensures |r| == if maxOptionsNumber <= 0 then 0
                     else if maxOptionsNumber < |TierOf(wordsCount, str, maxOptionsNumber)| then maxOptionsNumber
                     else |TierOf(wordsCount, str, maxOptionsNumber)|
      ensures NoDup(r) && ByCount(wordsCount, r)
      ensures forall x :: x in r ==> x in TierOf(wordsCount, str, maxOptionsNumber)
      ensures forall x, y :: x in TierOf(wordsCount, str, maxOptionsNumber) && x !in r && y in r ==>
                CountOf(wordsCount, x) <= CountOf(wordsCount, y)
      ensures forall x :: x in r ==> x in wordsCount && Reachable(str, x, 2)
      ensures str in wordsCount && maxOptionsNumber == 1 ==> r == [str]
    {
      var candidates: seq<string> := [];
      if str in wordsCount {
        candidates := candidates + [str];
      }
      ghost var exact: set<string> := if str in wordsCount then {str} else {};
      ghost var reached := exact;
      assert NoDup(candidates) && (set x | x in candidates) == reached && |candidates| == |reached|;
      if |candidates| < maxOptionsNumber {
        var found := trie.FindSimilar(str, 1, null, "");
        candidates := Distinct(found);  // Clear, then AddRange
        TierFound(str, 1, found, candidates);
        reached := SimilarWords(wordsCount.Keys, str, 1);
      }
      if |candidates| < maxOptionsNumber {
        var found := trie.FindSimilar(str, 2, null, "");
        candidates := Distinct(found);  // Clear, then AddRange
        TierFound(str, 2, found, candidates);
        reached := SimilarWords(wordsCount.Keys, str, 2);
      }
      if |exact| >= maxOptionsNumber {
        TierExact(wordsCount, str, maxOptionsNumber);
      } else if |SimilarWords(wordsCount.Keys, str, 1)| >= maxOptionsNumber {
        TierOne(wordsCount, str, maxOptionsNumber);
      } else {
        TierTwo(wordsCount, str, maxOptionsNumber);
      }
      r := Rank(wordsCount, candidates, maxOptionsNumber);
      RankedTier(wordsCount, str, maxOptionsNumber, candidates);
    }

    /** The repeat-free results of the walk within `d` edits are exactly
        the keys within `d` edits. */
    lemma TierFound(str: string, d: int, found: seq<string>, candidates: seq<string>)
      requires Valid() && found == trie.FindSimilar(str, d, null, "") && candidates == Distinct(found)
      ensures NoDup(candidates) && (set x | x in candidates) == SimilarWords(wordsCount.Keys, str, d)
      ensures |candidates| == |SimilarWords(wordsCount.Keys, str, d)|
    {
      trie.FindSimilarWords(str, d);
      NoDupCardinality(candidates);
    }
  }
}
