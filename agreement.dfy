/** How the two correctors relate on a dictionary of lower-case words, the
    only kind the dictionary reader produces (it keeps the matches of
    `[a-z]+`): their exact tiers and their one-edit tiers hold the same
    words, so they escalate past those tiers under the same conditions. */
module CheckerAgreement {
  import opened Collections
  import opened EditWalk
  import opened NaiveSpellChecker
  import opened TrieSpellChecking

  /** A non-empty word of lower-case Latin letters. */
  ghost predicate LowercaseWord(w: string) {
    w != [] && forall i :: 0 <= i < |w| ==> 'a' <= w[i] <= 'z'
  }

  /** Every word of the dictionary is a lower-case word. */
  ghost predicate LowercaseWords(counts: map<string, int>) {
    forall w :: w in counts ==> LowercaseWord(w)
  }

  /** For a lower-case word `x`, the trie walk with one edit reaches `x`
      exactly when `x` is one of the strings `Edits1` generates: the walk's
      free character choices are letters because `x` has no others, and a
      non-empty `x` is among its own replacements. */
  lemma OneEditAgrees(s: string, x: string)
    requires LowercaseWord(x)
    ensures Reachable(s, x, 1) <==> AlphabetEdit(s, x)
  {
    ReachableOne(s, x);
    if x == s {
      InAlphabet(x[0]);
      assert x == x[..0] + [x[0]] + x[1..];
      assert ReplaceAt(s, x, 0) && ReplacedFrom(s, x, 0);
    } else if OneEdit(s, x) {
      var i :| DeleteAt(s, x, i) || SwapAt(s, x, i) || ReplaceAt(s, x, i) || InsertAt(s, x, i);
      if ReplaceAt(s, x, i) {
        InAlphabet(x[i]);
        assert ReplacedFrom(s, x, 0);
      } else if InsertAt(s, x, i) {
        InAlphabet(x[i]);
        assert InsertedFrom(s, x, 0);
      }
    }
    if AlphabetEdit(s, x) {
      if Deleted(s, x) {
        var i :| DeleteAt(s, x, i);
      } else if Swapped(s, x) {
        var i :| SwapAt(s, x, i);
      } else if ReplacedFrom(s, x, 0) {
        var i :| 0 <= i && ReplaceAt(s, x, i) && x[i] in Alphabet();
      } else {
        var i :| 0 <= i && InsertAt(s, x, i) && x[i] in Alphabet();
      }
    }
  }

  /** On a lower-case dictionary the keys within one edit of the trie walk
      are exactly the words of `KnownEdits1`, and there are as many. */
  lemma TierOneAgrees(counts: map<string, int>, s: string)
    requires LowercaseWords(counts)
    ensures forall x :: x in SimilarWords(counts.Keys, s, 1) <==> x in KnownEdits1(counts, s)
    ensures |SimilarWords(counts.Keys, s, 1)| == |KnownEdits1(counts, s)|
  {
    var one := KnownEdits1(counts, s);
    forall x | x in counts ensures Reachable(s, x, 1) <==> AlphabetEdit(s, x) {
      OneEditAgrees(s, x);
    }
    NoDupCardinality(one);
    assert SimilarWords(counts.Keys, s, 1) == set x | x in one;
  }

  /** The trie corrector's exact tier holds as many words as the naive
      corrector's. */
  lemma ExactTiersAgree(counts: map<string, int>, s: string)
    ensures |(if s in counts then {s} else {})| == |Known(counts, [s])|
  {
    ExactTier(counts, s);
  }

  /** On a lower-case dictionary both correctors reach the same tier
      whenever the exact tier or the one-edit tier has at least `k` words,
      and that tier holds the same words in both. */
  lemma TiersAgree(counts: map<string, int>, s: string, k: int)
    requires LowercaseWords(counts)
    requires |Known(counts, [s])| >= k || |KnownEdits1(counts, s)| >= k
    ensures forall x :: x in TierOf(counts, s, k) <==> x in Candidates(counts, s, k)
  {
    ExactTiersAgree(counts, s);
    if |Known(counts, [s])| >= k {
      ExactTierChosen(counts, s, k);
    } else {
      TierOneAgrees(counts, s);
      TierOne(counts, s, k);
      NaiveTierOne(counts, s, k);
    }
  }

  /** When the exact tier suffices, both correctors answer from it. */
  lemma ExactTierChosen(counts: map<string, int>, s: string, k: int)
    requires |Known(counts, [s])| >= k
    ensures forall x :: x in TierOf(counts, s, k) <==> x in Candidates(counts, s, k)
  {
    ExactTier(counts, s);
    assert Candidates(counts, s, k) == Known(counts, [s]);
    assert TierOf(counts, s, k) == if s in counts then {s} else {};
  }

  /** Otherwise both move on to their two-edit tiers. */
  lemma BothReachTierTwo(counts: map<string, int>, s: string, k: int)
    requires LowercaseWords(counts)
    requires |Known(counts, [s])| < k && |KnownEdits1(counts, s)| < k
    ensures TierOf(counts, s, k) == SimilarWords(counts.Keys, s, 2)
    ensures Candidates(counts, s, k) == KnownEdits2(counts, s)
  {
    ExactTiersAgree(counts, s);
    TierOneAgrees(counts, s);
    TierTwo(counts, s, k);
    NaiveTierTwo(counts, s, k);
  }
}
