# Letter Boxed solver — Dafny model

A model of the solver in `main.py` for the "Letter Boxed" word-chaining puzzle:
the letters of the puzzle come in groups (the sides of the box); a word is
usable when it has at least three letters, all from the puzzle, and no two
adjacent letters come from the same side; a chain is a list of such words,
each starting with the last letter of the one before; the solver looks for a
short chain using every letter of the puzzle.

The model follows the program's structure:

- `options.dfy` — `Options.Option`, for lookups and selections that can come up empty.
- `text.dfy` — `Text.Letters` (`set(word)`) and the letters of a list of words.
- `trie.dfy` — module `Tries`: `TrieNode` as the immutable datatype
  `Node(ch, isEnd, children)`. `ch` is the node's own character; the root's is
  the empty string. `children` is a sequence in creation order, which is the
  iteration order of the Python dict and so the order of query results. The
  module also has `Trie.insert` (`InsertAt`, `Insert`), the descent of
  `Trie.query` (`Walk`), `Trie.dfs` (`Dfs`, `DfsFrom`) and `Trie.query`
  (`Query`). Its abstraction function is `Words` (via `Spelled`), the set of
  stored words.
- `groups.dfy` — module `Groups`: `is_valid_word` as written (`NextGroup`,
  `Scan`, `IsValidWord`) and a reference definition for disjoint groups
  (`Covered`, `Alternates`).
- `vocabulary.dfy` — module `Vocabulary`: the dictionary trie, and the two
  filtering stages as pure functions from trie to trie (`Harvest`,
  `AlphabetStage`, `GroupStage`, `FinalVocabulary`).
- `chain_search.dfy` — module `ChainSearch`: `count_used_characters`, the
  greedy pick, one step of `recurse` (`Advance`), `recurse` itself (`Recurse`,
  over an immutable `Search(letter, chain, left)` state, `decreases 7 - |chain|`),
  the per-start searches (`Chains`, `SearchAll`) and the `min(chains, key=len)`
  selection (`FirstShortest`), next to the corrected selection
  (`ShortestCovering`); `Select` computes both answers.

The word list, the sides and the order in which the set `all_chars` is
iterated are parameters (`words`, `sides`, `starts`). `starts` is any
sequence listing each letter of the sides exactly once (`Vocabulary.Enumerates`).

Two behaviours of the code that are easy to misread:
- `is_valid_word` skips every group equal (by value) to the previous letter's
  group and takes the first remaining group that contains the letter. With
  overlapping groups, a letter can therefore follow one from a shared group
  (`Groups.OverlapAccepted`).
- The `query` docstring promises results sorted by insertion count, but the
  code does no sorting; the model follows the code.

## Model

| member | source | states |
|---|---|---|
| `Tries.Empty` | main.py:22-27 | a fresh trie stores no word |
| `Tries.Lookup` | main.py:35-43 | the position found is that of the first child keyed by the character, every earlier child has another key, and the result is past the end exactly when no child has that key |
| `Tries.Insert` | main.py:29-46 | after insertion the stored words are the old ones plus the inserted word, nothing more; insertion keeps children keyed by one character each, with no key twice |
| `Tries.InsertAt` | main.py:31-46 | the walk from a node keeps that node's character; what it adds is `Tries.InsertSpelled`, that it keeps keys unique is `Tries.InsertWf`, and that a second insertion changes nothing is `Tries.InsertIdempotent` |
| `Tries.InsertSpelled` | main.py:31-46 | walking or creating children and marking the last node adds exactly the inserted word to the words spelled below a node |
| `Tries.InsertWf` | main.py:36-43 | a child is created only for a character no existing child has, so keys stay unique and single characters |
| `Tries.InsertIdempotent` | main.py:29-46 | inserting a word a second time leaves the trie identical, not only its set of words |
| `Tries.Walk` | main.py:73-78 | the node the descent reaches carries the last character of a non-empty prefix, so `x[:-1]` followed by that node's character is `x`; that stored words are found by it is `Tries.WalkComplete` |
| `Tries.WalkComplete` | main.py:73-78 | in a well-formed trie, a stored word starting with the prefix makes the descent succeed, and the rest of the word is spelled below the node reached |
| `Tries.Dfs` | main.py:48-60 | every string the traversal emits begins with the path prefix followed by the node's own character |
| `Tries.DfsSound` | main.py:56-60 | each emitted string is the path prefix, the node's character and a word spelled below the node |
| `Tries.DfsFrom` | main.py:59-60 | every string the loop over the children from position `i` emits starts with the path so far; `Tries.DfsFromSound` and `Tries.DfsFromComplete` give exactly which strings |
| `Tries.DfsComplete` | main.py:56-60 | every word spelled below the node is emitted |
| `Tries.DfsDistinct` | main.py:48-60 | in a well-formed trie the traversal emits no string twice |
| `Tries.ReachedSound` | main.py:73-84 | what the traversal from the reached node emits are stored words starting with the query prefix |
| `Tries.Query` | main.py:62-84 | the result is empty as soon as a prefix character has no child; every result starts with the prefix and is a stored word |
| `Tries.QueryExact` | main.py:62-84 | on a well-formed trie a string is returned exactly when it is a stored word having the prefix |
| `Tries.ReachedComplete` | main.py:62-84 | in a well-formed trie, every stored word with the prefix is among the query's results |
| `Tries.QueryDistinct` | main.py:62-84 | on a well-formed trie no word is returned twice |
| `Tries.InsertThenQuery` | main.py:29-84 | after inserting a word, querying it returns it, and every word any query returned before is still returned |
| `Groups.CharsOf` | main.py:102-105 | `all_chars`, collected side by side, holds exactly the characters lying in some side |
| `Groups.CollectedLetters` | main.py:102-105 | adding the letters of each side in turn gathers a character exactly when some side contains it |
| `Groups.NextGroup` | main.py:147-152 | the group chosen for a character contains it and differs by value from the current group, and it is the first such group; None exactly when every group lacks the character or equals the current group |
| `Groups.Scan` | main.py:145-155 | the loop over the word accepts only words whose every letter lies in some group; with disjoint groups it accepts exactly the alternating ones (`Groups.ScanAfter`) |
| `Groups.IsValidWord` | main.py:141-155 | an accepted word has at least three letters and each letter lies in some group; the converse, for disjoint groups, is `Groups.ValidIffAlternates` |
| `Groups.OutsideCharInvalid` | main.py:145-154 | a word with a letter in no group is refused, whatever its length |
| `Groups.ScanAfter` | main.py:144-155 | with disjoint groups, the scan after a letter of group g accepts exactly the remaining words whose letters lie in groups and alternate with that letter in front |
| `Groups.ValidIffAlternates` | main.py:141-155 | with disjoint groups a word is accepted exactly when it has at least three letters, all in groups, and no two adjacent letters share a group |
| `Groups.OverlapAccepted` | main.py:147-152 | with overlapping groups "ab", "bc", "d" the word "abd" is accepted although 'a' and 'b' share a group |
| `Groups.AdjacencyExample` | main.py:141-155 | with groups "ab" and "cd", "abc" is refused and "acb" accepted |
| `Vocabulary.BuildTrie` | main.py:95-96 | the dictionary trie stores exactly the words of the list and is well formed |
| `Vocabulary.HarvestWords` | main.py:111-114 | inserting the admitted words of a query result adds exactly those words |
| `Vocabulary.Harvest` | main.py:109-114 | a stage's trie is well formed and stores exactly the source words that are non-empty, start with a start letter and pass the stage's test |
| `Vocabulary.QueryOneLetter` | main.py:110 | on a well-formed trie, a one-letter query returns exactly the stored words starting with that letter |
| `Vocabulary.AlphabetStageWords` | main.py:107-114 | the first stage keeps exactly the non-empty dictionary words spelled only with the puzzle's letters |
| `Vocabulary.AlphabetStage` | main.py:107-114 | the first stage's trie is well formed and keeps only non-empty dictionary words spelled with the puzzle's letters; which ones exactly is `Vocabulary.AlphabetStageWords` |
| `Vocabulary.GroupStage` | main.py:158-164 | the second stage's trie is well formed and keeps only first-stage words that pass `is_valid_word`; the words of both stages together are `Vocabulary.FinalWord` |
| `Vocabulary.AlphabetStageDropsEmpty` | main.py:109-114 | the empty word passes the subset test but is never reached by a one-letter query, so the first stage drops it |
| `Vocabulary.FinalWord` | main.py:158-164 | a word survives both stages exactly when it is in the dictionary, has at least three letters, uses only puzzle letters and passes `is_valid_word` |
| `Vocabulary.FinalVocabulary` | main.py:107-164 | the final trie is well formed and stores exactly the valid dictionary words of at least three puzzle letters |
| `ChainSearch.CountUsed` | main.py:122-126 | the count is at most the number of distinct letters of the word and at most the number of letters left, and is zero exactly when the word uses none of them |
| `ChainSearch.Greediest` | main.py:179-190 | the pick is a candidate using at least as many letters left as every candidate, and every earlier candidate uses strictly fewer (ties go to the first): `MostUsingAt` |
| `ChainSearch.Advance` | main.py:177-195 | a step fails exactly when no word starts with the current letter; otherwise it appends one vocabulary word that starts with the current letter and is the first candidate using the most letters left, removes exactly its letters, and continues from its last letter |
| `ChainSearch.Recurse` | main.py:170-195 | the chain only grows, by linked vocabulary words, to at most seven words from an empty start; the letters left are the initial ones minus those of the added words; the search ends only past six words, with no letter left, or with no word for the current letter; a search that starts past six words or with no letter left returns its state unchanged |
| `ChainSearch.RecurseGreedy` | main.py:170-195 | the words `recurse` appends form the greedy run from its state (`Greedy`): it stops exactly when the chain is past six words, no letter is left or no word starts with the current letter, and otherwise appends the first candidate using the most letters left and goes on from that word's last letter |
| `ChainSearch.FirstMostUsingUnique` | main.py:183-190 | at most one word is the first candidate using the most letters left |
| `ChainSearch.GreedyUnique` | main.py:170-195 | two greedy runs from the same letter, letters left and room are the same words |
| `ChainSearch.GreedyLeft` | main.py:174-175 | before each word of a greedy run, some letter was still to be used |
| `ChainSearch.RecurseStep` | main.py:192-195 | appending the pick and continuing from its last letter keeps the chain linked and the letters left equal to those not yet used |
| `ChainSearch.ChainFrom` | main.py:170-201 | each per-start chain has at most seven linked vocabulary words, the first starting with the start letter; a chain of at most six words that misses a letter of the puzzle ended because no word starts with the letter it reached; the chain is the greedy run from the start letter with room for seven words, so each word is the first candidate using the most letters still unused; no prefix shorter than the chain already uses every letter |
| `ChainSearch.GreedyRunIsChainFrom` | main.py:170-201 | any sequence of words forming the greedy run from a start letter with every letter to use equals that start's chain |
| `ChainSearch.Chains` | main.py:198-202 | there is one chain per start letter, each linked from that letter, at most seven words long, made of vocabulary words; a chain of at most six words that misses a letter ends on a letter the vocabulary has no word for; each chain is the greedy run from its start letter, and none has a proper prefix that already uses every letter |
| `ChainSearch.FirstShortest` | main.py:205 | the selection is None exactly for no chains; otherwise it is a chain no longer than any other, and every earlier chain is strictly longer |
| `ChainSearch.StuckStartIsEmpty` | main.py:178-182 | a start letter no word begins with yields the empty chain while letters are left |
| `ChainSearch.ShortestMayCoverNothing` | main.py:198-205 | as soon as one start letter has no word, the selected chain is empty and covers none of the puzzle's letters |
| `ChainSearch.ShortestCoversNothingExample` | main.py:205 | the selection prefers an empty chain to a chain "cab" that covers a, b and c |
| `ChainSearch.ShortestCovering` | main.py:205 | the corrected selection returns a chain that uses every letter and is no longer than any other such chain, the first of those; None exactly when no chain uses every letter |
| `ChainSearch.SearchAll` | main.py:158-202 | the vocabulary it builds is the final one (same trie, so the same query order), well formed and holding exactly the dictionary words that pass `is_valid_word`; there is one chain per start letter; each has at most seven words, linked from its start letter, all of them dictionary words that pass `is_valid_word`; a chain of at most six words that misses a letter ends on a letter that begins no dictionary word passing `is_valid_word`; each chain is the greedy run over that vocabulary from its start letter, and none has a proper prefix that already uses every letter |
| `ChainSearch.StuckMeansNoWord` | main.py:158-164 | a letter with no candidate in a well-formed vocabulary that holds every valid dictionary word (as the final vocabulary does) begins no dictionary word that passes `is_valid_word` |
| `ChainSearch.Select` | main.py:204-205 | the as-written answer is the first chain no longer than any other, as `min` picks the first minimal element, and None exactly when there are no chains; the corrected answer is the first chain among those using every letter that is no longer than any other such chain, and None exactly when no chain uses every letter |

## Left out

- Reading `word_list.txt` (main.py:93): file I/O. The word list is the parameter `words`.
- Reading and splitting the sides from standard input (main.py:98-100): user I/O. The sides are the parameter `sides`.
- All `print` calls, including the "skipping" message (main.py:181, main.py:204-205): output only.
- `copy.deepcopy` of the letter set per start (main.py:200): sets are values in Dafny, so every search starts from its own copy anyway.
- The iteration order of the hash set `all_chars` (main.py:109, main.py:160, main.py:199): not determined by the program. It is the parameter `starts`, any sequence listing each of those letters once.
- The commented-out block (main.py:129-138): dead code.
- The instance field `self.output` (main.py:69, main.py:57): the traversal returns its sequence instead of appending to a shared list.
- The sorting promised by the `query` docstring (main.py:63-65, main.py:83): the code does not sort.
- The `try`/`except` around `valid_words[0]` (main.py:178-182): modelled as the empty-candidates case of `ChainSearch.Advance`. The `IndexError` it catches is the only exception that can arise there.
- ChainSearch.Recurse: its own contract does not state the greedy choice of each step. That is proved separately, as `ChainSearch.RecurseGreedy`, to keep each proof small.
- ChainSearch.FirstShortest: for an empty list of chains (no letters on the sides) `min` at main.py:205 raises `ValueError`. The model returns None instead of modelling the exception.
- Vocabulary.Harvest: its contract gives the set of words of a stage, not the order in which they are inserted. That order decides the children order of the new trie and so the greedy tie-break. The function's definition fixes it (start letters in turn, each query's results in order), but no lemma states it separately.

## Findings

| source | as written | input that shows it | evidently intended | confidence | as-written member | corrected member |
|---|---|---|---|---|---|---|
| main.py:205 | `min(chains, key=len)` takes the first shortest of all per-start chains, including those that do not use every letter | any puzzle with one letter that starts no valid word (e.g. an 'x' on a side): that start yields `[]`, which is then the answer | the shortest among the chains that use every letter of the puzzle | high; not executed | `ChainSearch.ShortestMayCoverNothing` | `ChainSearch.ShortestCovering` |
