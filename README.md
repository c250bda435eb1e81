# Spelling corrector: trie, edit generation and ranking

A Dafny model of the core of a small C# spelling corrector. Two correctors
share one shape. Each looks up the query itself. If that gives fewer words
than asked for, it looks at the dictionary words one edit away. If that
still gives too few, it looks at the words two edits away. Each tier
replaces the previous one. The words of the tier reached are sorted by
descending dictionary count and cut to the number of options asked for.

- **Trie nodes** (`trie_node.dfy`, module `TrieNodes`). `TrieNode` is a
  class with a sparse child array. The array starts at the smallest child
  character present (`baseChar`) and grows at either end as children are
  added. A ghost map `Children` is the abstract view of the array, and
  `Valid()` ties the two together.
- **Trie** (`trie.dfy`, module `Tries`). `Trie` is a class over a root node.
  A ghost map `At` sends every path of the trie to its node. `Words()` is
  the set of paths whose node is an entry.
  - `Insert` and `Contains` are loops that walk a node cursor.
  - `FindSimilar` is the recursive edit walk. It is a function that reads the
    heap and returns a sequence that may list a word more than once.
  - Termination is by `maxDist`, then the length of the word. Every recursive
    call either lowers `maxDist` or keeps it and shortens the word.
- **Edit walk** (`edit_walk.dfy`, module `EditWalk`). `Reachable(s, t, d)` is
  the string relation the walk decides. The lemmas say what budgets 0 and 1
  allow.
- **Naive corrector** (`naive.dfy`, module `NaiveSpellChecker`). It is built
  from pure functions:
  - `Edits1` over the 26-letter alphabet;
  - `Known`, `KnownEdits1` and `KnownEdits2`;
  - the tier choice `Candidates`;
  - `GetCorrections`.
- **Trie corrector** (`trie_checker.dfy`, module `TrieSpellChecking`).
  `TrieSpellChecker` is a class.
  - Its constructor inserts every dictionary key into the trie, in whatever
    order the keys come.
  - `GetCorrections` refills a local candidate list tier by tier.
  - The ghost function `TierOf` names the set of words of the tier reached.
- **Shared pieces** (`collections.dfy`, `ranking.dfy`): `Distinct`, `Union`
  and `Take` as in LINQ, and `Rank`, which is a stable sort by descending
  count followed by `Take`.
- **Agreement** (`agreement.dfy`, module `CheckerAgreement`). On a
  dictionary of lower-case words, the only kind the dictionary reader
  produces, the two correctors have the same exact tier and the same
  one-edit tier. So they escalate under the same conditions.

The dictionary is a parameter `counts: map<string, int>`. Strings are
`seq<char>`.

## Model

| member | source | states |
|---|---|---|
| TrieNodes.TrieNode.constructor | SpellChecker/Trie.cs:12-21 | a new node has no child array, no children and is not an entry |
| TrieNodes.TrieNode.BaseChar | SpellChecker/Trie.cs:23-26 | once a child exists, the base character is the character of a child and no child's character is smaller |
| TrieNodes.TrieNode.GetChild | SpellChecker/Trie.cs:55-70 | returns the child stored for `c`, or null exactly when `c` has none; null when there is no array and for any `c` outside `[baseChar, baseChar + nodes.Length)` |
| TrieNodes.TrieNode.Contains | SpellChecker/Trie.cs:72-75 | true exactly when `c` has a child |
| TrieNodes.TrieNode.GetAllChildren | SpellChecker/Trie.cs:77-80 | empty when there is no array, else the array's slots; a filled slot `i` holds the child of character `baseChar + i` |
| TrieNodes.TrieNode.SlotFilled | SpellChecker/Trie.cs:142-144 | slot `i` is filled exactly when character `baseChar + i` has a child, and then holds it |
| TrieNodes.TrieNode.ChildSlot | SpellChecker/Trie.cs:62-69 | the child of character `k` sits in slot `k - baseChar`, inside the array |
| TrieNodes.TrieNode.AddChild | SpellChecker/Trie.cs:28-53 | returns the child for `c`; an existing child is returned and never replaced; a missing one is a fresh empty node; every other child is kept; the entry flag is unchanged |
| TrieNodes.TrieNode.Reserve | SpellChecker/Trie.cs:30-45 | after the three branches (first child, grow low, grow high) the array covers `c` and still stores every child under its character |
| TrieNodes.TrieNode.GrowLow | SpellChecker/Trie.cs:35-41 | the array starts at `c`, each child shifted up by `baseChar - c`, and the children are unchanged |
| TrieNodes.TrieNode.GrowHigh | SpellChecker/Trie.cs:42-45 | the array is resized so its last slot is `c`'s, and the children are unchanged |
| TrieNodes.CopyTo | SpellChecker/Trie.cs:38 | slots `offset..offset+|src|` of `dst` receive `src` and the other slots keep their values |
| Tries.CharAt | SpellChecker/Trie.cs:144 | the cast `(char)(i + node.BaseChar)` of lines 144 and 180; it is a definition and has no contract |
| Tries.SlotCharacter | SpellChecker/Trie.cs:140-146 | the character of a filled slot leads back to it: `GetChild` of that character returns the slot's child, which is what lets the slot loops stand for the children by character |
| Tries.Trie.constructor | SpellChecker/Trie.cs:83 | a new trie is valid and stores no word |
| Tries.Trie.Contains | SpellChecker/Trie.cs:85-100 | returns true exactly when `key` is a stored word; a missing child on the way means the key is not stored |
| Tries.Trie.Descend | SpellChecker/Trie.cs:106-109 | one step of the insertion loop: the trie stays valid, the node for the next prefix exists and the stored words are unchanged |
| Tries.Trie.Insert | SpellChecker/Trie.cs:102-112 | the stored words become the old ones plus `key`: `key` is contained, no word is lost, none other is added, and inserting a stored word changes nothing |
| Tries.Trie.Marked | SpellChecker/Trie.cs:111 | setting the entry flag of the node at `key` adds exactly `key` to the words and keeps the trie valid |
| Tries.Trie.PrefixClosed | SpellChecker/Trie.cs:89-97 | every prefix of a path of the trie is a path, which is why `Contains` can stop at the first missing child |
| Tries.Trie.FindSimilar | SpellChecker/Trie.cs:123-192 | the recursive walk (insert through every child, stop at the end of the word, match, delete, replace by every other child, swap the first two characters); every result starts with `built` |
| Tries.Trie.EachChild | SpellChecker/Trie.cs:140-146 | the loops over the child slots at lines 140-146 and 176-182, the latter leaving out the child for the word's first character; every result starts with `built` |
| Tries.Trie.FindSimilarExact | SpellChecker/Trie.cs:123-192 | from the node of path `p` with `p` built, the results are exactly the stored words extending `p` whose remainder the edit walk reaches from the word within `maxDist` edits |
| Tries.Trie.FindSimilarWords | SpellChecker/Trie.cs:114-130 | from the root with nothing built, the results are exactly the stored words the walk reaches; a stored word is among its own results for `maxDist >= 0`; `maxDist < 0` gives nothing |
| Tries.Trie.FindSimilarExactMatch | SpellChecker/Trie.cs:149-170 | with `maxDist = 0` from the root, the result is `[word]` when `word` is stored and empty otherwise |
| Tries.Trie.MatchOnly | SpellChecker/Trie.cs:159-170 | with no edits left, the walk from the node at `p` follows the word and reports `p + word` once when it is stored |
| Tries.Trie.NoneBelow | SpellChecker/Trie.cs:127-130 | a negative budget finds nothing below any child slot |
| EditWalk.ReachableExact | SpellChecker/Trie.cs:159-170 | with budget 0 the walk reaches the word itself and nothing else |
| EditWalk.ReachableSelf | SpellChecker/Trie.cs:159-164 | every word reaches itself with any budget `d >= 0` |
| EditWalk.ReachableMonotone | SpellChecker/Trie.cs:119 | a larger budget reaches everything a smaller one does |
| EditWalk.ReachableLength | SpellChecker/Trie.cs:139-189 | a walk with budget `d` ends within `d` characters of the query's length |
| EditWalk.ReachableOne | SpellChecker/Trie.cs:139-189 | budget 1 reaches exactly the query and the strings one deletion, adjacent swap, substitution or insertion away |
| Collections.Distinct | SpellChecker/TrieSpellChecker.cs:30 | the same elements, each once, no longer than the input |
| Collections.Union | SpellChecker/NaiveSpellChecker.cs:52 | the elements of both sequences, each once |
| Collections.Take | SpellChecker/NaiveSpellChecker.cs:32 | the first `k` elements, all when fewer, none when `k <= 0` |
| Ranking.CountOf | SpellChecker/NaiveSpellChecker.cs:31 | the sort key of both correctors (also TrieSpellChecker.cs:40): a word's count, 0 for a word not in the dictionary; it is a definition and has no contract |
| Ranking.InsertByCount | SpellChecker/NaiveSpellChecker.cs:30-31 | the result is the input plus `x`, as a multiset |
| Ranking.InsertKeepsOrder | SpellChecker/NaiveSpellChecker.cs:30-31 | inserting into a sequence ordered by descending count keeps it ordered |
| Ranking.SortByCount | SpellChecker/NaiveSpellChecker.cs:30-31 | a permutation of the input with non-increasing counts |
| Ranking.Rank | SpellChecker/NaiveSpellChecker.cs:30-32 | `min(k, n)` candidates (none for `k <= 0`) with non-increasing counts and no new repeats; no candidate left out counts more than one kept |
| NaiveSpellChecker.InAlphabet | SpellChecker/BaseSpellChecker.cs:10 | the alphabet holds exactly the letters `a` to `z` |
| NaiveSpellChecker.Deletions | SpellChecker/NaiveSpellChecker.cs:37-38 | exactly the one-character deletions, each one shorter |
| NaiveSpellChecker.Transpositions | SpellChecker/NaiveSpellChecker.cs:40-42 | exactly the swaps of neighbouring characters, each as long as the query |
| NaiveSpellChecker.ReplacementsAt | SpellChecker/NaiveSpellChecker.cs:44-46 | exactly the replacements of the character at `i` by an alphabet letter |
| NaiveSpellChecker.Alterations | SpellChecker/NaiveSpellChecker.cs:44-46 | exactly the replacements by an alphabet letter at positions `i` and later, each as long as the query |
| NaiveSpellChecker.InsertionsAt | SpellChecker/NaiveSpellChecker.cs:48-50 | exactly the insertions of an alphabet letter before position `i` |
| NaiveSpellChecker.Insertions | SpellChecker/NaiveSpellChecker.cs:48-50 | exactly the insertions of an alphabet letter at positions `i..|s|`, each one longer |
| NaiveSpellChecker.Edits1 | SpellChecker/NaiveSpellChecker.cs:35-53 | exactly the strings one deletion, swap, alphabet replacement or alphabet insertion away, each once, each within one character of the query's length |
| NaiveSpellChecker.SelfEdit | SpellChecker/NaiveSpellChecker.cs:44-46 | a non-empty query of alphabet letters is among its own edits |
| NaiveSpellChecker.Known | SpellChecker/NaiveSpellChecker.cs:55-58 | exactly the dictionary words of the input, no longer than it, with no new repeats |
| NaiveSpellChecker.KnownAppend | SpellChecker/NaiveSpellChecker.cs:55-58 | filtering keeps the input order: filtering a concatenation concatenates the filtered parts |
| NaiveSpellChecker.KnownEdits1 | SpellChecker/NaiveSpellChecker.cs:60-63 | exactly the dictionary words one edit away, each once |
| NaiveSpellChecker.EditsOfAll | SpellChecker/NaiveSpellChecker.cs:67-68 | exactly the edits of some string of the input |
| NaiveSpellChecker.KnownEdits2 | SpellChecker/NaiveSpellChecker.cs:65-70 | exactly the dictionary words reached by two successive edits, each once |
| NaiveSpellChecker.Candidates | SpellChecker/NaiveSpellChecker.cs:18-28 | the tier reached holds dictionary words only, each once |
| NaiveSpellChecker.GetCorrections | SpellChecker/NaiveSpellChecker.cs:16-33 | `min(k, |tier|)` words of the tier `Candidates` reaches (none for `k <= 0`), each once, by non-increasing count; no word of that tier left out counts more than one kept; all dictionary words, each the query or one or two edits away |
| NaiveSpellChecker.AnswerFrom | SpellChecker/NaiveSpellChecker.cs:30-32 | whichever tier is reached, the answer is its `min(k, |tier|)` highest-count words |
| NaiveSpellChecker.ExactTier | SpellChecker/NaiveSpellChecker.cs:18 | the exact tier is `[s]` when `s` is a dictionary word and empty otherwise |
| NaiveSpellChecker.ExactAnswer | SpellChecker/NaiveSpellChecker.cs:18-32 | a dictionary word asked for with `k = 1` is its own only correction |
| NaiveSpellChecker.OneEditTier | SpellChecker/NaiveSpellChecker.cs:20-23 | when the exact tier falls short and the one-edit tier has at least `k` words, the answer is `k` of them, and no word of that tier left out counts more than one kept |
| NaiveSpellChecker.TwoEditTier | SpellChecker/NaiveSpellChecker.cs:25-28 | when both earlier tiers fall short, the answer comes from the two-edit tier alone, as many words as fit, and no word of that tier left out counts more than one kept |
| NaiveSpellChecker.Edits1AsWritten | SpellChecker/NaiveSpellChecker.cs:40 | the eager check of `Enumerable.Range(0, |s| - 1)`: `Throws` for the empty query, otherwise `Edits1`; it is a definition and has no contract, and the callers below state what follows from it |
| NaiveSpellChecker.EditsOfAllAsWritten | SpellChecker/NaiveSpellChecker.cs:67-68 | throws exactly when the empty string is among the strings edited |
| NaiveSpellChecker.KnownEdits2AsWritten | SpellChecker/NaiveSpellChecker.cs:65-70 | throws exactly for queries shorter than two characters, otherwise returns `KnownEdits2` |
| NaiveSpellChecker.GetCorrectionsAsWritten | SpellChecker/NaiveSpellChecker.cs:16-33 | throws exactly when the one-edit tier is reached for `""` or the two-edit tier for a query of at most one character; otherwise answers as `GetCorrections` |
| NaiveSpellChecker.OneLetterQuery | SpellChecker/NaiveSpellChecker.cs:16-33 | for dictionary `{"and": 2}`, query `"a"` and `k = 1`, the code as written throws and the corrected corrector answers `["and"]` |
| TrieSpellChecking.TierWithinTwo | SpellChecker/TrieSpellChecker.cs:22-37 | every word of the tier reached is a key within two edits; a key asked for with `k = 1` is its tier's only word |
| TrieSpellChecking.RankedTier | SpellChecker/TrieSpellChecker.cs:39-41 | ranking a repeat-free listing of the tier keeps `min(k, |tier|)` of its words, each once, by non-increasing count, none left out counting more than one kept |
| TrieSpellChecking.TrieSpellChecker.constructor | SpellChecker/TrieSpellChecker.cs:10-16 | after inserting the keys one by one, in any order, the trie's words are exactly the dictionary's keys |
| TrieSpellChecking.TrieSpellChecker.TierFound | SpellChecker/TrieSpellChecker.cs:27-37 | `Distinct` of the walk within `d` edits lists each key within `d` edits once, and nothing else |
| TrieSpellChecking.TrieSpellChecker.GetCorrections | SpellChecker/TrieSpellChecker.cs:18-42 | `min(k, |tier|)` words of the tier reached (none for `k <= 0`), each once, by non-increasing count, none left out counting more than one kept; every word a key within two edits; `[str]` when `str` is a key and `k = 1` |
| CheckerAgreement.OneEditAgrees | SpellChecker/NaiveSpellChecker.cs:35-53 | for a lower-case word, the trie walk with one edit reaches it exactly when `Edits1` generates it |
| CheckerAgreement.TierOneAgrees | SpellChecker/TrieSpellChecker.cs:27-31 | on a lower-case dictionary the trie's one-edit tier and `KnownEdits1` hold the same words and have the same size |
| CheckerAgreement.ExactTiersAgree | SpellChecker/TrieSpellChecker.cs:22-25 | both correctors' exact tiers have the same size |
| CheckerAgreement.TiersAgree | SpellChecker/TrieSpellChecker.cs:18-31 | when the exact or one-edit tier suffices, both correctors answer from the same set of words |
| CheckerAgreement.BothReachTierTwo | SpellChecker/TrieSpellChecker.cs:33-37 | when neither earlier tier suffices, both correctors move to their two-edit tiers |

## Left out

- Reading the dictionary is not modelled. `BaseSpellChecker` reads a file, lower-cases it and counts the matches of `[a-z]+`; this is file I/O and a library regex. The dictionary is a parameter instead. Only `CheckerAgreement` assumes what the reader guarantees: every key is a non-empty word of the letters a to z.
- `Program.cs` is a console demo that only prints results. It is not part of this model.
- Ranking.Rank, Ranking.SortByCount, NaiveSpellChecker.GetCorrections and TrieSpellChecking.TrieSpellChecker.GetCorrections state non-increasing counts and which words are kept. They do not state the order among equal counts. The sort itself is stable, like LINQ's `orderby … descending`.
- NaiveSpellChecker.Edits1, NaiveSpellChecker.KnownEdits1 and NaiveSpellChecker.KnownEdits2 state which words they hold and that each appears once, not their order. The bodies produce the order LINQ's `Union` and `Distinct` produce, and the order only matters for ties.
- Tries.Trie.FindSimilarExact and Tries.Trie.FindSimilarWords state which words are found, not how often each one is listed. The trie corrector removes repeats with `Distinct`.
- The two-edit tiers of the two correctors are not claimed to agree. `Edits1` applied twice and the trie walk with budget two can differ when edits overlap.
- LINQ's deferred execution is not modelled. `Outcome` records whether the answer throws, not when. For `""` the one-edit tier throws inside `GetCorrections`, because `Edits1` builds its ranges eagerly. In the two-edit tier the exception comes from the deferred `KnownEdits2` query, so it is raised only when the returned sequence is enumerated.
- `Trie.Insert` twice on the same key has no separate lemma, because a lemma cannot call a method. It follows from `Insert`'s contract: inserting a stored word leaves `Words()` unchanged.
- Characters are Dafny `char`s (Unicode scalar values), not C#'s UTF-16 code units. A trie slot whose character code would be a surrogate (0xD800–0xDFFF) cannot be represented. The model's trie never creates one, because every child comes from a character of an inserted word.
- `maxOptionsNumber` and the counts are unbounded integers. C#'s 32-bit `int` cannot overflow in this code: counts only increase by one per occurrence, and array sizes stay within the character range.

## Findings

| source | as written | input that shows it | evidently intended | confidence | as-written member | corrected member |
|---|---|---|---|---|---|---|
| SpellChecker/NaiveSpellChecker.cs:40 | `Enumerable.Range(0, str.Length - 1)` throws for the empty string. `KnownEdits2` applies `Edits1` to every one-edit string, and deleting the only letter of a one-letter query gives `""`. So the answer of `GetCorrections` throws when it is enumerated whenever the two-edit tier is reached for a query of at most one letter. For `""` the one-edit tier already throws inside the call. | dictionary `{"and": 2}`, query `"a"`, `maxOptionsNumber = 1` | no transpositions for strings shorter than two, so the answer is `["and"]` | not executed | NaiveSpellChecker.OneLetterQuery | NaiveSpellChecker.GetCorrections |
