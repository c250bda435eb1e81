/** The Norvig-style corrector: it generates every string one edit away
    from the query (over the letters a..z), keeps the dictionary words, and
    escalates from the exact word to one edit to two edits when a tier has
    fewer than the requested number of answers. The dictionary is a map
    from word to count, read only. */
module NaiveSpellChecker {
  import opened Collections
  import opened Ranking
  import opened EditWalk

  /** The `i`-th lower-case Latin letter. */
  function Letter(i: int): char
    requires 0 <= i < 26
  {
    ('a' as int + i) as char
  }

  /** The letters that replacements and insertions use, "a" to "z" in order. */
  function Alphabet(): string {
    seq(26, Letter)
  }

  /** The letters of `Alphabet` are exactly the lower-case Latin letters. */
  lemma InAlphabet(c: char)
    ensures c in Alphabet() <==> 'a' <= c <= 'z'
  {
    if 'a' <= c <= 'z' {
      assert Alphabet()[c as int - 'a' as int] == c;
    }
  }

  /** `t` is `s` with one character removed. */
  ghost predicate Deleted(s: string, t: string) {
    exists i :: DeleteAt(s, t, i)
  }

  /** `t` is `s` with two neighbouring characters swapped. */
  ghost predicate Swapped(s: string, t: string) {
    exists i :: SwapAt(s, t, i)
  }

  /** `t` is `s` with the character at some position `i` or later replaced
      by a letter of `Alphabet`. */
  ghost predicate ReplacedFrom(s: string, t: string, i: int) {
    exists j :: i <= j && ReplaceAt(s, t, j) && t[j] in Alphabet()
  }

  /** `t` is `s` with a letter of `Alphabet` inserted before some position
      `i` or later. */
  ghost predicate InsertedFrom(s: string, t: string, i: int) {
    exists j :: i <= j && InsertAt(s, t, j) && t[j] in Alphabet()
  }

  /** `t` is one deletion or adjacent swap away from `s`, or one replacement
      or insertion of a letter of `Alphabet`. */
  ghost predicate AlphabetEdit(s: string, t: string) {
    Deleted(s, t) || Swapped(s, t) || ReplacedFrom(s, t, 0) || InsertedFrom(s, t, 0)
  }

  /** Every way of removing one character, by position. */
  function Deletions(s: string): (r: seq<string>)
    ensures forall t :: t in r <==> Deleted(s, t)
    ensures forall t :: t in r ==> |t| == |s| - 1
  {
    var r := seq(|s|, i requires 0 <= i < |s| => s[..i] + s[i + 1..]);
    assert forall t :: t in r <==> Deleted(s, t) by {
      forall t ensures t in r <==> Deleted(s, t) {
        if t in r {
          var i :| 0 <= i < |r| && r[i] == t;
          assert DeleteAt(s, t, i);
        }
        if Deleted(s, t) {
          var i :| DeleteAt(s, t, i);
          assert r[i] == t;
        }
      }
    }
    r
  }

  /** Every way of swapping two neighbouring characters, by position. */
  function Transpositions(s: string): (r: seq<string>)
    ensures forall t :: t in r <==> Swapped(s, t)
    ensures forall t :: t in r ==> |t| == |s|
  {
    var n := if s == [] then 0 else |s| - 1;
    var r := seq(n, i requires 0 <= i < n => s[..i] + [s[i + 1], s[i]] + s[i + 2..]);
    assert forall t :: t in r <==> Swapped(s, t) by {
      forall t ensures t in r <==> Swapped(s, t) {
        if t in r {
          var i :| 0 <= i < |r| && r[i] == t;
          assert SwapAt(s, t, i);
        }
        if Swapped(s, t) {
          var i :| SwapAt(s, t, i);
          assert r[i] == t;
        }
      }
    }
    r
  }

  /** Replacing the character at `i` by each letter of `Alphabet` in turn. */
  function ReplacementsAt(s: string, i: nat): (r: seq<string>)
    requires i < |s|
    ensures forall t :: t in r <==> ReplaceAt(s, t, i) && t[i] in Alphabet()
  {
    var r := seq(|Alphabet()|, k requires 0 <= k < |Alphabet()| => s[..i] + [Alphabet()[k]] + s[i + 1..]);
    assert forall k :: 0 <= k < |Alphabet()| ==> r[k][i] == Alphabet()[k] && ReplaceAt(s, r[k], i);
    assert forall t :: ReplaceAt(s, t, i) && t[i] in Alphabet() ==> t in r by {
      forall t | ReplaceAt(s, t, i) && t[i] in Alphabet() ensures t in r {
        var k :| 0 <= k < |Alphabet()| && Alphabet()[k] == t[i];
        assert r[k] == t;
      }
    }
    r
  }

  /** Every replacement of one character by a letter, positions `i..` in
      order, each position through the whole alphabet. */
  function Alterations(s: string, i: nat := 0): (r: seq<string>)
    requires i <= |s|
    ensures forall t :: t in r <==> ReplacedFrom(s, t, i)
    ensures forall t :: t in r ==> |t| == |s|
    decreases |s| - i
  {
    if i == |s| then []
    else
      var r := ReplacementsAt(s, i) + Alterations(s, i + 1);
      assert forall t :: ReplacedFrom(s, t, i) ==> (ReplaceAt(s, t, i) && t[i] in Alphabet()) || ReplacedFrom(s, t, i + 1) by {
        forall t | ReplacedFrom(s, t, i) ensures (ReplaceAt(s, t, i) && t[i] in Alphabet()) || ReplacedFrom(s, t, i + 1) {
          var j :| i <= j && ReplaceAt(s, t, j) && t[j] in Alphabet();
        }
      }
      r
  }

  /** Inserting each letter of `Alphabet` in turn before position `i`. */
  function InsertionsAt(s: string, i: nat): (r: seq<string>)
    requires i <= |s|
    ensures forall t :: t in r <==> InsertAt(s, t, i) && t[i] in Alphabet()
  {
    var r := seq(|Alphabet()|, k requires 0 <= k < |Alphabet()| => s[..i] + [Alphabet()[k]] + s[i..]);
    assert forall k :: 0 <= k < |Alphabet()| ==> r[k][i] == Alphabet()[k] && InsertAt(s, r[k], i);
    assert forall t :: InsertAt(s, t, i) && t[i] in Alphabet() ==> t in r by {
      forall t | InsertAt(s, t, i) && t[i] in Alphabet() ensures t in r {
        var k :| 0 <= k < |Alphabet()| && Alphabet()[k] == t[i];
        assert r[k] == t;
      }
    }
    r
  }

  /** Every insertion of one letter, positions `i..|s|` in order, each
      position through the whole alphabet. */
  function Insertions(s: string, i: nat := 0): (r: seq<string>)
    requires i <= |s| + 1
    ensures forall t :: t in r <==> InsertedFrom(s, t, i)
    ensures forall t :: t in r ==> |t| == |s| + 1
    decreases |s| + 1 - i
  {
    if i == |s| + 1 then []
    else
      var r := InsertionsAt(s, i) + Insertions(s, i + 1);
      assert forall t :: InsertedFrom(s, t, i) ==> (InsertAt(s, t, i) && t[i] in Alphabet()) || InsertedFrom(s, t, i + 1) by {
        forall t | InsertedFrom(s, t, i) ensures (InsertAt(s, t, i) && t[i] in Alphabet()) || InsertedFrom(s, t, i + 1) {
          var j :| i <= j && InsertAt(s, t, j) && t[j] in Alphabet();
        }
      }
      r
  }

  /** The strings one edit away from `s`: deletions, then transpositions,
      then replacements, then insertions, each kept once. */
  function Edits1(s: string): (r: seq<string>)
    ensures forall t :: t in r <==> AlphabetEdit(s, t)
    ensures forall t :: t in r ==> |s| - 1 <= |t| <= |s| + 1
    ensures NoDup(r)
  {
    var deletions, transpositions, alterations, insertions := Deletions(s), Transpositions(s), Alterations(s), Insertions(s);
    var r := Union(Union(Union(deletions, transpositions), alterations), insertions);
    assert forall t :: t in r <==> t in deletions || t in transpositions || t in alterations || t in insertions;
    r
  }

  /** A non-empty lower-case word is among its own edits: replacing a letter
      by itself is one of the replacements. */
  lemma SelfEdit(s: string)
    requires s != [] && forall i :: 0 <= i < |s| ==> s[i] in Alphabet()
    ensures s in Edits1(s)
  {
    assert s == s[..0] + [s[0]] + s[1..];
    assert ReplaceAt(s, s, 0) && ReplacedFrom(s, s, 0);
  }

  /** The words of `ws` that are in the dictionary, in their order. */
  function Known(counts: map<string, int>, ws: seq<string>): (r: seq<string>)
    ensures forall x :: x in r <==> x in ws && x in counts
    ensures |r| <= |ws|
    ensures NoDup(ws) ==> NoDup(r)
  {
    if ws == [] then []
    else
      var rest := Known(counts, ws[1..]);
      assert forall x :: x in ws <==> x == ws[0] || x in ws[1..] by {
        assert ws == [ws[0]] + ws[1..];
      }
      assert NoDup(ws) ==> NoDup(ws[1..]) && ws[0] !in ws[1..];
      (if ws[0] in counts then [ws[0]] else []) + rest
  }

  /** `Known` filters element by element, so it keeps the order of `ws`:
      filtering a concatenation concatenates the filtered parts. */
  lemma {:induction false} KnownAppend(counts: map<string, int>, a: seq<string>, b: seq<string>)
    ensures Known(counts, a + b) == Known(counts, a) + Known(counts, b)
    decreases |a|
  {
    if a != [] {
      var ab := a + b;
      assert ab[0] == a[0] && ab[1..] == a[1..] + b;
      KnownAppend(counts, a[1..], b);
      var head := if a[0] in counts then [a[0]] else [];
      assert Known(counts, ab) == head + Known(counts, a[1..] + b);
      assert Known(counts, a) == head + Known(counts, a[1..]);
      ConcatAssoc(head, Known(counts, a[1..]), Known(counts, b));
    } else {
      assert a + b == b;
    }
  }

  /** The dictionary words one edit away. */
  function KnownEdits1(counts: map<string, int>, s: string): (r: seq<string>)
    ensures forall x :: x in r <==> x in counts && AlphabetEdit(s, x)
    ensures NoDup(r)
  {
    Known(counts, Edits1(s))
  }

  /** The edits of each string of `es`, one after the other. */
  function EditsOfAll(es: seq<string>): (r: seq<string>)
    ensures forall t :: t in r <==> exists e :: e in es && t in Edits1(e)
  {
    if es == [] then []
    else
      assert forall e :: e in es <==> e == es[0] || e in es[1..] by {
        assert es == [es[0]] + es[1..];
      }
      Edits1(es[0]) + EditsOfAll(es[1..])
  }

  /** The dictionary words two edits away, each once. */
  function KnownEdits2(counts: map<string, int>, s: string): (r: seq<string>)
    ensures forall x :: x in r <==> x in counts && exists e :: AlphabetEdit(s, e) && AlphabetEdit(e, x)
    ensures NoDup(r)
  {
    Distinct(Known(counts, EditsOfAll(Edits1(s))))
  }

  /** The candidates of the last tier reached: the word itself, then the
      words one edit away, then two, moving on while a tier has fewer than
      `k` words. */
  function Candidates(counts: map<string, int>, s: string, k: int): (c: seq<string>)
    ensures NoDup(c) && forall x :: x in c ==> x in counts
  {
    var exact := Known(counts, [s]);
    if |exact| >= k then exact
    else
      var one := KnownEdits1(counts, s);
      if |one| >= k then one
      else KnownEdits2(counts, s)
  }

  /** The corrections: the `k` words of the tier reached with the highest
      counts (all of them when there are fewer), each once, by non-increasing
      count; each a dictionary word that is the word itself or one or two
      edits away. */
  function GetCorrections(counts: map<string, int>, s: string, k: int): (r: seq<string>)
    ensures |r| == if k <= 0 then 0 else if k < |Candidates(counts, s, k)| then k else |Candidates(counts, s, k)|
    ensures forall x :: x in r ==> x in Candidates(counts, s, k)
    ensures forall x, y :: x in Candidates(counts, s, k) && x !in r && y in r ==> CountOf(counts, x) <= CountOf(counts, y)
    ensures NoDup(r) && ByCount(counts, r)
    ensures forall x :: x in r ==> x in counts
    ensures forall x :: x in r ==> x == s || AlphabetEdit(s, x) || exists e :: AlphabetEdit(s, e) && AlphabetEdit(e, x)
  {
    Rank(counts, Candidates(counts, s, k), k)
  }

  /** The exact tier holds the word itself exactly when it is in the
      dictionary. */
  lemma ExactTier(counts: map<string, int>, s: string)
    ensures Known(counts, [s]) == if s in counts then [s] else []
  {
    assert [s][1..] == [];
  }

  /** A dictionary word asked for with room for one answer is its own only
      answer: the later tiers are never consulted. */
  lemma ExactAnswer(counts: map<string, int>, s: string)
    requires s in counts
    ensures GetCorrections(counts, s, 1) == [s]
  {
    ExactTier(counts, s);
    var r := GetCorrections(counts, s, 1);
    assert |r| == 1 && r[0] in r;
  }

  /** When the exact tier falls short and the one-edit tier has at least
      `k` words, the answer is `k` of them and nothing from the exact tier
      survives on its own. */
  lemma OneEditTier(counts: map<string, int>, s: string, k: int)
    requires 0 < k <= |KnownEdits1(counts, s)| && (s in counts ==> 1 < k)
    ensures |GetCorrections(counts, s, k)| == k
    ensures forall x :: x in GetCorrections(counts, s, k) ==> x in KnownEdits1(counts, s)
    ensures forall x, y :: x in KnownEdits1(counts, s) && x !in GetCorrections(counts, s, k) && y in GetCorrections(counts, s, k) ==>
              CountOf(counts, x) <= CountOf(counts, y)
  {
    var one := KnownEdits1(counts, s);
    NoExactTier(counts, s, k);
    NaiveTierOne(counts, s, k);
    AnswerFrom(counts, s, k, one);
    assert (if k < |one| then k else |one|) == k;
  }

  /** A query that is not a key, or is one but with room for more than one
      answer, does not stop at the exact tier. */
  lemma NoExactTier(counts: map<string, int>, s: string, k: int)
    requires 0 < k && (s in counts ==> 1 < k)
    ensures |Known(counts, [s])| < k
  {
    ExactTier(counts, s);
  }

  /** The tier reached when the exact tier falls short and the one-edit
      tier does not. */
  lemma NaiveTierOne(counts: map<string, int>, s: string, k: int)
    requires |Known(counts, [s])| < k <= |KnownEdits1(counts, s)|
    ensures Candidates(counts, s, k) == KnownEdits1(counts, s)
  {
  }

  /** The tier reached when both earlier tiers fall short. */
  lemma NaiveTierTwo(counts: map<string, int>, s: string, k: int)
    requires |Known(counts, [s])| < k && |KnownEdits1(counts, s)| < k
    ensures Candidates(counts, s, k) == KnownEdits2(counts, s)
  {
  }

  /** The corrections are the top `k` of whichever tier is reached. */
  lemma AnswerFrom(counts: map<string, int>, s: string, k: int, tier: seq<string>)
    requires Candidates(counts, s, k) == tier
    ensures |GetCorrections(counts, s, k)| == if k <= 0 then 0 else if k < |tier| then k else |tier|
    ensures forall x :: x in GetCorrections(counts, s, k) ==> x in tier
    ensures forall x, y :: x in tier && x !in GetCorrections(counts, s, k) && y in GetCorrections(counts, s, k) ==>
              CountOf(counts, x) <= CountOf(counts, y)
  {
  }

  /** When both earlier tiers fall short, the answer comes from the
      two-edit tier alone and holds as many of its words as fit in `k`. */
  lemma TwoEditTier(counts: map<string, int>, s: string, k: int)
    requires 0 < k && |KnownEdits1(counts, s)| < k && (s in counts ==> 1 < k)
    ensures |GetCorrections(counts, s, k)| == if k < |KnownEdits2(counts, s)| then k else |KnownEdits2(counts, s)|
    ensures forall x :: x in GetCorrections(counts, s, k) ==> x in KnownEdits2(counts, s)
    ensures forall x, y :: x in KnownEdits2(counts, s) && x !in GetCorrections(counts, s, k) && y in GetCorrections(counts, s, k) ==>
              CountOf(counts, x) <= CountOf(counts, y)
  {
    NoExactTier(counts, s, k);
    NaiveTierTwo(counts, s, k);
    AnswerFrom(counts, s, k, KnownEdits2(counts, s));
  }

  /** The result of a computation that may throw. */
  datatype Outcome<T> = Returns(value: T) | Throws

  /** `Edits1` as written. `Enumerable.Range` checks its count as soon as
      it is called, so the transposition range `Range(0, |s| - 1)` throws
      when `s` is empty, before anything is produced. */
  function Edits1AsWritten(s: string): Outcome<seq<string>>
  {
    if |s| - 1 < 0 then Throws else Returns(Edits1(s))
  }

  /** The inner loop of `KnownEdits2` as written: the edits of each string in
      turn, which throws as soon as one of them is empty. */
  function EditsOfAllAsWritten(es: seq<string>): (r: Outcome<seq<string>>)
    ensures r.Throws? <==> [] in es
    ensures r.Returns? ==> r.value == EditsOfAll(es)
  {
    if es == [] then Returns([])
    else
      assert forall e :: e in es <==> e == es[0] || e in es[1..] by {
        assert es == [es[0]] + es[1..];
      }
      match Edits1AsWritten(es[0])
      case Throws => Throws
      case Returns(first) =>
        match EditsOfAllAsWritten(es[1..])
        case Throws => Throws
        case Returns(rest) => Returns(first + rest)
  }

  /** `KnownEdits2` as written: it throws for every query shorter than two
      characters, since deleting the only character leaves the empty string. */
  function KnownEdits2AsWritten(counts: map<string, int>, s: string): (r: Outcome<seq<string>>)
    ensures r.Throws? <==> |s| <= 1
    ensures r.Returns? ==> r.value == KnownEdits2(counts, s)
  {
    assert |s| == 1 ==> DeleteAt(s, [], 0);
    match Edits1AsWritten(s)
    case Throws => Throws
    case Returns(firsts) =>
      match EditsOfAllAsWritten(firsts)
      case Throws => Throws
      case Returns(seconds) => Returns(Distinct(Known(counts, seconds)))
  }

  /** `GetCorrections` as written: it throws when the one-edit tier is
      reached for the empty query, or the two-edit tier for a query of at
      most one character; otherwise it answers as `GetCorrections` does. */
  function GetCorrectionsAsWritten(counts: map<string, int>, s: string, k: int): (r: Outcome<seq<string>>)
    ensures r.Throws? <==>
              |Known(counts, [s])| < k && (s == [] || (|KnownEdits1(counts, s)| < k && |s| <= 1))
    ensures r.Returns? ==> r.value == GetCorrections(counts, s, k)
  {
    var exact := Known(counts, [s]);
    if |exact| >= k then
      assert Candidates(counts, s, k) == exact;
      Returns(Rank(counts, exact, k))
    else
      match Edits1AsWritten(s)
      case Throws => Throws
      case Returns(edits) =>
        var one := Known(counts, edits);
        if |one| >= k then
          assert Candidates(counts, s, k) == one;
          Returns(Rank(counts, one, k))
        else
          match KnownEdits2AsWritten(counts, s)
          case Throws => Throws
          case Returns(two) =>
            assert Candidates(counts, s, k) == two;
            Returns(Rank(counts, two, k))
  }

  /** A one-letter query whose only nearby word is two insertions away:
      as written the corrector throws, while the corrected one answers with
      that word. */
  lemma OneLetterQuery()
    ensures GetCorrectionsAsWritten(map["and" := 2], "a", 1) == Throws
    ensures GetCorrections(map["and" := 2], "a", 1) == ["and"]
  {
    var counts := map["and" := 2];
    NothingOneEditFromA();
    ExactTier(counts, "a");
    AndTwoEditsFromA();
    TwoEditTier(counts, "a", 1);
    var r := GetCorrections(counts, "a", 1);
    assert |r| == 1 && r[0] in r;
  }

  /** No word one edit away from "a" has three letters. */
  lemma NothingOneEditFromA()
    ensures KnownEdits1(map["and" := 2], "a") == []
  {
    var one := KnownEdits1(map["and" := 2], "a");
    assert forall x :: x in one ==> |x| <= 2;
    SameElementsSameLength(one, []);
  }

  /** Appending a letter is an insertion at the end, one edit away. */
  lemma AppendLetter(s: string, c: char)
    requires 'a' <= c <= 'z'
    ensures AlphabetEdit(s, s + [c])
  {
    InAlphabet(c);
    assert InsertAt(s, s + [c], |s|) && (s + [c])[|s|] in Alphabet();
    assert InsertedFrom(s, s + [c], 0);
  }

  /** "an" is one insertion away from "a", and "and" one away from "an". */
  lemma AndFromA()
    ensures AlphabetEdit("a", "an") && AlphabetEdit("an", "and")
  {
    AppendLetter("a", 'n');
    assert "a" + ['n'] == "an";
    AppendLetter("an", 'd');
    assert "an" + ['d'] == "and";
  }

  /** In a one-word dictionary, a word two edits away from the query is the
      whole second tier. */
  lemma OnlyWordTwoEditsAway(w: string, n: int, s: string, e: string)
    requires AlphabetEdit(s, e) && AlphabetEdit(e, w)
    ensures KnownEdits2(map[w := n], s) == [w]
  {
    var two := KnownEdits2(map[w := n], s);
    assert w in two;
    Single(two, w);
  }

  /** "and" is two insertions away from "a", and the only dictionary word
      that far away. */
  lemma AndTwoEditsFromA()
    ensures KnownEdits2(map["and" := 2], "a") == ["and"]
  {
    AndFromA();
    OnlyWordTwoEditsAway("and", 2, "a", "an");
  }
}
