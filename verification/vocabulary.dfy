/**
 The vocabulary pipeline of main.py: the dictionary trie built from the word
 list (lines 95-96), the words spelled with the puzzle's letters only
 (lines 107-114), and of those the words obeying the group-alternation rule
 (lines 158-164). Each restricted trie is built by querying the previous one
 with every start letter in turn and inserting the admitted words in query
 order, which fixes the child order, and hence the query order, of the new trie.
 */
module Vocabulary {
  import opened Tries
  import opened Text
  import opened Groups

  /** The dictionary trie: every word of the list inserted in order. */
  function BuildTrie(words: seq<string>): (t: Trie)
    ensures Wf(t)
    ensures Words(t) == set w | w in words
  {
    if words == [] then Empty()
    else
      var t := BuildTrie(words[..|words| - 1]);
      assert words == words[..|words| - 1] + [words[|words| - 1]];
      Insert(t, words[|words| - 1])
  }

  /** Which words a filtering stage keeps. */
  datatype Stage = Alphabet(allowed: set<char>) | Alternation(sides: seq<string>)

  /** `w_set.issubset(all_chars)` for the first stage, `is_valid_word(word, sides)` for the second. */
  predicate Admits(stage: Stage, w: string)
  {
    match stage
    case Alphabet(allowed) => Letters(w) <= allowed
    case Alternation(sides) => IsValidWord(w, sides)
  }

  /** The inner loop of a stage: insert, in order, each word of `ws` the stage admits. */
  function HarvestWords(t: Trie, ws: seq<string>, stage: Stage): (r: Trie)
    ensures Words(r) == Words(t) + (set w | w in ws && Admits(stage, w))
    ensures Wf(t) ==> Wf(r)
  {
    if ws == [] then t
    else
      var init, w := ws[..|ws| - 1], ws[|ws| - 1];
      assert ws == init + [w];
      var t' := HarvestWords(t, init, stage);
      if Admits(stage, w) then Insert(t', w) else t'
  }

  /** A stage: a fresh trie filled by querying `src` with each start letter in turn. */
  function Harvest(src: Trie, starts: seq<char>, stage: Stage): (r: Trie)
    ensures Wf(r)
    ensures Wf(src) ==> Words(r) == set w | w in Words(src) && w != [] && w[0] in starts && Admits(stage, w)
  {
    if starts == [] then Empty()
    else
      var init, c := starts[..|starts| - 1], starts[|starts| - 1];
      assert starts == init + [c];
      var t := Harvest(src, init, stage);
      QueryOneLetter(src, c);
      HarvestWords(t, Query(src, [c]), stage)
  }

  /** Querying a well-formed trie with one letter gives the stored words starting with that letter. */
  lemma {:induction false} QueryOneLetter(t: Trie, c: char)
    ensures Wf(t) ==> forall w :: w in Query(t, [c]) <==> w in Words(t) && w != [] && w[0] == c
  {
    if Wf(t) {
      forall w ensures w in Query(t, [c]) <==> w in Words(t) && w != [] && w[0] == c {
        QueryExact(t, [c], w);
        if w != [] && w[0] == c {
          assert w[..1] == [c];
        }
      }
    }
  }

  /** The first stage: words spelled only with the puzzle's letters (`all_possible_words_trie`). */
  function AlphabetStage(full: Trie, sides: seq<string>, starts: seq<char>): (r: Trie)
    ensures Wf(r)
    ensures Wf(full) ==> forall w :: w in Words(r) ==> w in Words(full) && w != [] && Letters(w) <= CharsOf(sides)
  {
    Harvest(full, starts, Alphabet(CharsOf(sides)))
  }

  /** The second stage: of those, the words `is_valid_word` accepts (`all_valid_words_trie`). */
  function GroupStage(alphabet: Trie, sides: seq<string>, starts: seq<char>): (r: Trie)
    ensures Wf(r)
    ensures Wf(alphabet) ==> forall w :: w in Words(r) ==> w in Words(alphabet) && IsValidWord(w, sides)
  {
    Harvest(alphabet, starts, Alternation(sides))
  }

  /** `starts` lists each member of `chars` once (the iteration over the set `all_chars`, in whatever order). */
  predicate Enumerates(starts: seq<char>, chars: set<char>)
  {
    && (forall c :: c in starts <==> c in chars)
    && (forall i, j :: 0 <= i < j < |starts| ==> starts[i] != starts[j])
  }

  /** The final vocabulary: from the dictionary, exactly the valid words over the puzzle's letters. */
  function FinalVocabulary(words: seq<string>, sides: seq<string>, starts: seq<char>): (t: Trie)
    requires Enumerates(starts, CharsOf(sides))
    ensures Wf(t)
    ensures forall w :: w in Words(t) <==>
              w in words && |w| >= 3 && Letters(w) <= CharsOf(sides) && IsValidWord(w, sides)
  {
    var full := BuildTrie(words);
    var t := GroupStage(AlphabetStage(full, sides, starts), sides, starts);
    forall w ensures w in Words(t) <==>
                     w in words && |w| >= 3 && Letters(w) <= CharsOf(sides) && IsValidWord(w, sides)
    {
      FinalWord(full, sides, starts, w);
    }
    t
  }

  /** A valid word is spelled with the puzzle's letters. */
  lemma {:induction false} ValidLetters(w: string, sides: seq<string>)
    requires IsValidWord(w, sides)
    ensures |w| >= 3 && Letters(w) <= CharsOf(sides)
  {
    forall c | c in Letters(w) ensures c in CharsOf(sides) {
      var i :| 0 <= i < |w| && w[i] == c;
      assert InGroup(w[i], sides);
    }
  }

  lemma {:induction false} FinalWord(full: Trie, sides: seq<string>, starts: seq<char>, w: string)
    requires Wf(full) && Enumerates(starts, CharsOf(sides))
    ensures w in Words(GroupStage(AlphabetStage(full, sides, starts), sides, starts)) <==>
              w in Words(full) && |w| >= 3 && Letters(w) <= CharsOf(sides) && IsValidWord(w, sides)
  {
    AlphabetStageWords(full, sides, starts);
    if IsValidWord(w, sides) {
      ValidLetters(w, sides);
      assert w[0] in Letters(w);
    }
  }

  /** The first stage drops the empty word even though its (empty) letter set lies within any alphabet. */
  lemma {:induction false} AlphabetStageDropsEmpty(full: Trie, sides: seq<string>, starts: seq<char>)
    requires Wf(full) && [] in Words(full)
    ensures [] !in Words(AlphabetStage(full, sides, starts))
    ensures Admits(Alphabet(CharsOf(sides)), [])
  {
  }

  /** The first stage keeps exactly the non-empty dictionary words spelled with the puzzle's letters. */
  lemma {:induction false} AlphabetStageWords(full: Trie, sides: seq<string>, starts: seq<char>)
    requires Wf(full) && Enumerates(starts, CharsOf(sides))
    ensures forall w :: w in Words(AlphabetStage(full, sides, starts)) <==>
              w in Words(full) && w != [] && Letters(w) <= CharsOf(sides)
  {
    forall w | w in Words(full) && w != [] && Letters(w) <= CharsOf(sides)
      ensures w[0] in starts
    {
      assert w[0] in Letters(w);
    }
  }
}
