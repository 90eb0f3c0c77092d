/**
 The greedy chain search of main.py (`count_used_characters`, `recurse` and
 the driver loop at the end of the file). From a start letter it repeatedly
 queries the final vocabulary for the words beginning with the current letter,
 takes the one covering most of the letters still to be used (the first such
 in query order), and continues from that word's last letter.
 */
module ChainSearch {
  import opened Options
  import opened Text
  import opened Tries
  import opened Groups
  import opened Vocabulary

  /** `count_used_characters`: how many of the letters still to be used `w` uses. */
  function CountUsed(w: string, left: set<char>): (r: nat)
    ensures r <= |Letters(w)| && r <= |left|
    ensures r == 0 <==> Letters(w) !! left
  {
    CardSubset(Letters(w) * left, Letters(w));
    CardSubset(Letters(w) * left, left);
    CardZero(Letters(w), left);
    |Letters(w) * left|
  }

  lemma {:induction false} CardSubset<T>(a: set<T>, b: set<T>)
    requires a <= b
    ensures |a| <= |b|
  {
    if a != {} {
      var x :| x in a;
      CardSubset(a - {x}, b - {x});
    }
  }

  lemma {:induction false} CardZero<T>(a: set<T>, b: set<T>)
    ensures |a * b| == 0 <==> a !! b
  {
    if !(a !! b) {
      var x :| x in a && x in b;
      CardSubset({x}, a * b);
    }
  }

  /**
   The selection loop of `recurse` (lines 179-190): start from the first
   candidate and move to a later one only when it uses strictly more letters.
   The result is the position of the first candidate using the most letters.
   */
  function Greediest(cands: seq<string>, left: set<char>): (k: nat)
    requires cands != []
    ensures MostUsingAt(cands, left, k)
  {
    if |cands| == 1 then 0
    else
      var init := cands[..|cands| - 1];
      var k := Greediest(init, left);
      assert forall j :: 0 <= j < |init| ==> init[j] == cands[j];
      if CountUsed(cands[|cands| - 1], left) > CountUsed(cands[k], left) then |cands| - 1 else k
  }

  /** The state of one search: the letter the next word must start with, the chain so far, the letters still to be used. */
  datatype Search = Search(letter: char, chain: seq<string>, left: set<char>)

  /** The last character of a non-empty word (`word[-1]`). */
  function Last(w: string): char
    requires w != []
  {
    w[|w| - 1]
  }

  /** The words a search may continue with from `letter`. */
  function Candidates(vocab: Trie, letter: char): seq<string>
  {
    Query(vocab, [letter])
  }

  /** Candidate `k` uses the most of the letters `left`, and every earlier candidate strictly fewer. */
  predicate MostUsingAt(cands: seq<string>, left: set<char>, k: int)
  {
    && 0 <= k < |cands|
    && (forall j :: 0 <= j < |cands| ==> CountUsed(cands[j], left) <= CountUsed(cands[k], left))
    && (forall j :: 0 <= j < k ==> CountUsed(cands[j], left) < CountUsed(cands[k], left))
  }

  /** `w` is the first candidate using the most of the letters `left`. */
  predicate FirstMostUsing(cands: seq<string>, left: set<char>, w: string)
  {
    exists k :: 0 <= k < |cands| && MostUsingAt(cands, left, k) && cands[k] == w
  }

  /**
   A legal greedy step from `s` to `t`: one word is appended, it starts with
   the current letter and is the first candidate using most of the letters
   left, those letters are no longer left, and its last letter is current.
   */
  predicate GreedyStep(vocab: Trie, s: Search, t: Search)
  {
    && |t.chain| == |s.chain| + 1
    && s.chain <= t.chain
    && var w := t.chain[|s.chain|];
    && w != [] && w[0] == s.letter
    && w in Words(vocab)
    && FirstMostUsing(Candidates(vocab, s.letter), s.left, w)
    && t.letter == Last(w)
    && t.left == s.left - Letters(w)
  }

  /**
   One step of `recurse` (lines 177-195): None when no word starts with the
   current letter; otherwise the greedy pick is appended, its letters are
   removed from those still to be used, and its last letter becomes current.
   */
  function Advance(vocab: Trie, s: Search): (r: Option<Search>)
    ensures r.None? <==> Candidates(vocab, s.letter) == []
    ensures r.Some? ==> GreedyStep(vocab, s, r.value)
  {
    var cands := Candidates(vocab, s.letter);
    if cands == [] then None
    else
      var k := Greediest(cands, s.left);
      var w := cands[k];
      assert w in cands;
      assert [s.letter] <= w;
      var t := Search(Last(w), s.chain + [w], s.left - Letters(w));
      assert t.chain[|s.chain|] == w;
      Some(t)
  }

  /** Each word is non-empty, the first starts with `first`, and each next one starts with the last letter of the one before. */
  predicate Linked(first: char, ws: seq<string>)
  {
    && (forall i :: 0 <= i < |ws| ==> ws[i] != [])
    && (ws != [] ==> ws[0][0] == first)
    && (forall i :: 0 < i < |ws| ==> ws[i][0] == Last(ws[i - 1]))
  }

  /** The letter a linked run of words ends on. */
  function EndLetter(first: char, ws: seq<string>): char
    requires Linked(first, ws)
  {
    if ws == [] then first else Last(ws[|ws| - 1])
  }

  /**
   Where a search stops (lines 171-182): no room is left for another word,
   every letter is used, or no word starts with the current letter.
   */
  predicate Halts(vocab: Trie, letter: char, left: set<char>, budget: int)
  {
    budget <= 0 || left == {} || Candidates(vocab, letter) == []
  }

  /**
   The run of `recurse` from `letter` with the letters `left` still to be used
   and room for `budget` more words, as a relation on the words it appends:
   it stops exactly when there is no room, no letter is left or no word starts
   with the current letter; otherwise the next word is the first candidate
   using the most letters left, and the run goes on from its last letter.
   */
  predicate Greedy(vocab: Trie, letter: char, left: set<char>, budget: int, ws: seq<string>)
    decreases |ws|
  {
    if ws == [] then Halts(vocab, letter, left, budget)
    else
      && budget > 0 && left != {}
      && ws[0] != [] && ws[0][0] == letter
      && FirstMostUsing(Candidates(vocab, letter), left, ws[0])
      && Greedy(vocab, Last(ws[0]), left - Letters(ws[0]), budget - 1, ws[1..])
  }

  /** The first candidate using the most letters is a single word. */
  lemma {:induction false} FirstMostUsingUnique(cands: seq<string>, left: set<char>, v: string, w: string)
    requires FirstMostUsing(cands, left, v) && FirstMostUsing(cands, left, w)
    ensures v == w
  {
    var a :| 0 <= a < |cands| && MostUsingAt(cands, left, a) && cands[a] == v;
    var b :| 0 <= b < |cands| && MostUsingAt(cands, left, b) && cands[b] == w;
    assert a == b;
  }

  /** The greedy run is determined by where it starts: two runs from the same state are the same words. */
  lemma {:induction false} GreedyUnique(vocab: Trie, letter: char, left: set<char>, budget: int, vs: seq<string>, ws: seq<string>)
    requires Greedy(vocab, letter, left, budget, vs) && Greedy(vocab, letter, left, budget, ws)
    ensures vs == ws
    decreases |vs|
  {
    if vs != [] && ws != [] {
      FirstMostUsingUnique(Candidates(vocab, letter), left, vs[0], ws[0]);
      GreedyUnique(vocab, Last(vs[0]), left - Letters(vs[0]), budget - 1, vs[1..], ws[1..]);
      assert vs == [vs[0]] + vs[1..] && ws == [ws[0]] + ws[1..];
    }
  }

  /** Before each word of a greedy run some letter was still to be used. */
  lemma {:induction false} GreedyLeft(vocab: Trie, letter: char, left: set<char>, budget: int, ws: seq<string>, i: nat)
    requires Greedy(vocab, letter, left, budget, ws) && i < |ws|
    ensures left - LettersOfAll(ws[..i]) != {}
    decreases i
  {
    if i == 0 {
      assert ws[..0] == [];
    } else {
      var w, tail := ws[0], ws[1..];
      GreedyLeft(vocab, Last(w), left - Letters(w), budget - 1, tail, i - 1);
      assert ws[..i] == [w] + tail[..i - 1];
      LettersOfAllCons(w, tail[..i - 1]);
    }
  }

  /**
   `recurse`: apply `Advance` until the chain has more than six words, no
   letter is left, or no word starts with the current letter. The chain only
   grows, by linked vocabulary words, to at most seven words from an empty
   start; the letters left only shrink, by exactly the letters of the words
   added.
   */
  function Recurse(vocab: Trie, s: Search): (r: Search)
    ensures s.chain <= r.chain
    ensures |r.chain| <= if |s.chain| > 7 then |s.chain| else 7
    ensures Linked(s.letter, r.chain[|s.chain|..])
    ensures r.letter == EndLetter(s.letter, r.chain[|s.chain|..])
    ensures forall i :: |s.chain| <= i < |r.chain| ==> r.chain[i] in Words(vocab)
    ensures r.left == s.left - LettersOfAll(r.chain[|s.chain|..])
    ensures Halts(vocab, r.letter, r.left, 7 - |r.chain|)
    ensures |s.chain| > 6 || s.left == {} ==> r == s
    decreases 7 - |s.chain|
  {
    if |s.chain| > 6 || s.left == {} then
      assert s.chain[|s.chain|..] == [];
      s
    else
      match Advance(vocab, s)
      case None => assert s.chain[|s.chain|..] == []; s
      case Some(next) =>
        var r := Recurse(vocab, next);
        var w := next.chain[|s.chain|];
        assert next.chain == s.chain + [w];
        RecurseStep(vocab, s, w, next, r);
        r
  }

  /** The words `Recurse` appends are the greedy run from its state, with room up to seven words. */
  lemma {:induction false} RecurseGreedy(vocab: Trie, s: Search)
    ensures Greedy(vocab, s.letter, s.left, 7 - |s.chain|, Recurse(vocab, s).chain[|s.chain|..])
    decreases 7 - |s.chain|
  {
    var r := Recurse(vocab, s);
    if |s.chain| > 6 || s.left == {} {
      assert r.chain[|s.chain|..] == [];
    } else {
      match Advance(vocab, s)
      case None =>
        assert r.chain[|s.chain|..] == [];
      case Some(next) =>
        RecurseGreedy(vocab, next);
        RecurseGreedyStep(vocab, s, next);
    }
  }

  /** The step case of `RecurseGreedy`: a greedy step in front of the run from the next state. */
  lemma {:induction false} RecurseGreedyStep(vocab: Trie, s: Search, next: Search)
    requires |s.chain| <= 6 && s.left != {} && Advance(vocab, s) == Some(next)
    requires Greedy(vocab, next.letter, next.left, 7 - |next.chain|, Recurse(vocab, next).chain[|next.chain|..])
    ensures Greedy(vocab, s.letter, s.left, 7 - |s.chain|, Recurse(vocab, s).chain[|s.chain|..])
  {
    RecurseUnfold(vocab, s, next);
    var r := Recurse(vocab, next);
    var tail := r.chain[|next.chain|..];
    GreedyStepRun(vocab, s, next, tail);
    SliceStep(s.chain, next.chain, r.chain);
  }

  /** `Recurse` after a step that did not stop is `Recurse` from the next state. */
  lemma {:induction false} RecurseUnfold(vocab: Trie, s: Search, next: Search)
    requires |s.chain| <= 6 && s.left != {} && Advance(vocab, s) == Some(next)
    ensures Recurse(vocab, s) == Recurse(vocab, next)
  {
  }

  /** The words after `a` in `c`, where `b` is `a` and one word more and `c` extends `b`. */
  lemma {:induction false} SliceStep<T>(a: seq<T>, b: seq<T>, c: seq<T>)
    requires a <= b && |b| == |a| + 1 && b <= c
    ensures c[|a|..] == [b[|a|]] + c[|b|..]
  {
    assert c[|a|] == b[|a|];
  }

  /** One greedy pick in front of a greedy run from the picked word's last letter. */
  lemma {:induction false} GreedyCons(vocab: Trie, letter: char, left: set<char>, budget: int, w: string, tail: seq<string>)
    requires budget > 0 && left != {} && w != [] && w[0] == letter
    requires FirstMostUsing(Candidates(vocab, letter), left, w)
    requires Greedy(vocab, Last(w), left - Letters(w), budget - 1, tail)
    ensures Greedy(vocab, letter, left, budget, [w] + tail)
  {
    assert ([w] + tail)[1..] == tail;
  }

  /** The greedy run carried back over the greedy step from `s` to `next`. */
  lemma {:induction false} GreedyStepRun(vocab: Trie, s: Search, next: Search, tail: seq<string>)
    requires |s.chain| <= 6 && s.left != {}
    requires GreedyStep(vocab, s, next)
    requires Greedy(vocab, next.letter, next.left, 7 - |next.chain|, tail)
    ensures Greedy(vocab, s.letter, s.left, 7 - |s.chain|, [next.chain[|s.chain|]] + tail)
  {
    var w := next.chain[|s.chain|];
    GreedyCons(vocab, s.letter, s.left, 7 - |s.chain|, w, tail);
  }

  /** The contract of `Recurse` carried back over one step that appends `w`. */
  lemma {:induction false} RecurseStep(vocab: Trie, s: Search, w: string, next: Search, r: Search)
    requires next.chain == s.chain + [w] && w in Words(vocab)
    requires w != [] && w[0] == s.letter && next.letter == Last(w) && next.left == s.left - Letters(w)
    requires next.chain <= r.chain
    requires Linked(next.letter, r.chain[|next.chain|..])
    requires r.letter == EndLetter(next.letter, r.chain[|next.chain|..])
    requires forall i :: |next.chain| <= i < |r.chain| ==> r.chain[i] in Words(vocab)
    requires r.left == next.left - LettersOfAll(r.chain[|next.chain|..])
    ensures s.chain <= r.chain
    ensures Linked(s.letter, r.chain[|s.chain|..])
    ensures r.letter == EndLetter(s.letter, r.chain[|s.chain|..])
    ensures forall i :: |s.chain| <= i < |r.chain| ==> r.chain[i] in Words(vocab)
    ensures r.left == s.left - LettersOfAll(r.chain[|s.chain|..])
  {
    var tail := r.chain[|next.chain|..];
    assert r.chain[|s.chain|..] == [w] + tail by {
      assert r.chain[|s.chain|] == w;
    }
    LettersOfAllCons(w, tail);
    LinkedCons(s.letter, w, tail, next.letter);
  }

  /** Putting in front of a run linked from `letter` a word that starts with `first` and ends with `letter`. */
  lemma {:induction false} LinkedCons(first: char, w: string, tail: seq<string>, letter: char)
    requires w != [] && w[0] == first && Last(w) == letter
    requires Linked(letter, tail)
    ensures Linked(first, [w] + tail)
    ensures EndLetter(first, [w] + tail) == EndLetter(letter, tail)
  {
    var ws := [w] + tail;
    forall i | 0 < i < |ws| ensures ws[i][0] == Last(ws[i - 1]) {
      if i > 1 {
        assert ws[i] == tail[i - 1] && ws[i - 1] == tail[i - 2];
      } else {
        assert ws[1] == tail[0];
      }
    }
    if tail != [] {
      assert ws[|ws| - 1] == tail[|tail| - 1];
    }
  }

  lemma {:induction false} LettersOfAllCons(w: string, ws: seq<string>)
    ensures LettersOfAll([w] + ws) == Letters(w) + LettersOfAll(ws)
    decreases |ws|
  {
    if ws != [] {
      var init := ws[..|ws| - 1];
      assert ([w] + ws)[..|ws|] == [w] + init;
      LettersOfAllCons(w, init);
    }
  }

  /** A chain covers the puzzle when its words use every one of its letters. */
  predicate Covers(chain: seq<string>, target: set<char>)
  {
    target <= LettersOfAll(chain)
  }

  /**
   The search from one start letter with all the puzzle's letters to use
   (lines 199-201): the greedy run from the start letter with room for seven
   words. No word is added once every letter is used, and a chain of at most
   six words that misses a letter ended because no word starts with the
   letter it reached.
   */
  function ChainFrom(vocab: Trie, target: set<char>, start: char): (chain: seq<string>)
    ensures |chain| <= 7
    ensures Linked(start, chain)
    ensures forall i :: 0 <= i < |chain| ==> chain[i] in Words(vocab)
    ensures Greedy(vocab, start, target, 7, chain)
    ensures forall i :: 0 <= i < |chain| ==> !Covers(chain[..i], target)
    ensures |chain| <= 6 && !Covers(chain, target) ==> Candidates(vocab, EndLetter(start, chain)) == []
  {
    var r := Recurse(vocab, Search(start, [], target));
    assert r.chain[0..] == r.chain;
    RecurseGreedy(vocab, Search(start, [], target));
    forall i | 0 <= i < |r.chain| ensures !Covers(r.chain[..i], target) {
      GreedyLeft(vocab, start, target, 7, r.chain, i);
    }
    UncoveredLeft(r.chain, target);
    r.chain
  }

  /** `ChainFrom` is the only greedy run from its start letter: any words that satisfy `Greedy` are that chain. */
  lemma {:induction false} GreedyRunIsChainFrom(vocab: Trie, target: set<char>, start: char, ws: seq<string>)
    requires Greedy(vocab, start, target, 7, ws)
    ensures ws == ChainFrom(vocab, target, start)
  {
    GreedyUnique(vocab, start, target, 7, ws, ChainFrom(vocab, target, start));
  }

  /** A chain misses a letter exactly when some letter is left over. */
  lemma {:induction false} UncoveredLeft(chain: seq<string>, target: set<char>)
    ensures !Covers(chain, target) <==> target - LettersOfAll(chain) != {}
  {
    if !Covers(chain, target) {
      var c :| c in target && c !in LettersOfAll(chain);
      assert c in target - LettersOfAll(chain);
    }
  }

  /** One search per start letter, each with its own copy of all the letters (lines 198-202). */
  function Chains(vocab: Trie, target: set<char>, starts: seq<char>): (chains: seq<seq<string>>)
    ensures |chains| == |starts|
    ensures forall i :: 0 <= i < |chains| ==> |chains[i]| <= 7 && Linked(starts[i], chains[i])
    ensures forall i, j :: 0 <= i < |chains| && 0 <= j < |chains[i]| ==> chains[i][j] in Words(vocab)
    ensures forall i :: 0 <= i < |chains| && |chains[i]| <= 6 && !Covers(chains[i], target) ==>
              Candidates(vocab, EndLetter(starts[i], chains[i])) == []
    ensures forall i :: 0 <= i < |chains| ==> Greedy(vocab, starts[i], target, 7, chains[i])
    ensures forall i, j :: 0 <= i < |chains| && 0 <= j < |chains[i]| ==> !Covers(chains[i][..j], target)
  {
    seq(|starts|, i requires 0 <= i < |starts| => ChainFrom(vocab, target, starts[i]))
  }

  /**
   `min(chains, key=len)` (line 205): the position of the first shortest
   chain, or None for an empty list (where `min` raises).
   */
  function FirstShortest(chains: seq<seq<string>>): (k: Option<nat>)
    ensures k.None? <==> chains == []
    ensures k.Some? ==> k.value < |chains|
    ensures k.Some? ==> forall j :: 0 <= j < |chains| ==> |chains[k.value]| <= |chains[j]|
    ensures k.Some? ==> forall j :: 0 <= j < k.value ==> |chains[j]| > |chains[k.value]|
  {
    if chains == [] then None
    else
      var init := chains[..|chains| - 1];
      assert forall j :: 0 <= j < |init| ==> init[j] == chains[j];
      match FirstShortest(init)
      case None => Some(0)
      case Some(k) => if |chains[|chains| - 1]| < |chains[k]| then Some(|chains| - 1) else Some(k)
  }

  /** A start letter no word begins with yields the empty chain, as long as letters are left to use. */
  lemma {:induction false} StuckStartIsEmpty(vocab: Trie, target: set<char>, start: char)
    requires target != {} && Candidates(vocab, start) == []
    ensures ChainFrom(vocab, target, start) == []
  {
  }

  /**
   As written, the answer is the empty chain, which covers nothing, as soon
   as one start letter has no word beginning with it, however well the other
   searches did.
   */
  lemma {:induction false} ShortestMayCoverNothing(vocab: Trie, target: set<char>, starts: seq<char>, i: nat)
    requires i < |starts| && target != {} && Candidates(vocab, starts[i]) == []
    ensures var chains := Chains(vocab, target, starts);
            FirstShortest(chains).Some? && chains[FirstShortest(chains).value] == []
            && !Covers(chains[FirstShortest(chains).value], target)
  {
    var chains := Chains(vocab, target, starts);
    StuckStartIsEmpty(vocab, target, starts[i]);
    assert chains[i] == [];
    var k := FirstShortest(chains).value;
    assert |chains[k]| <= |chains[i]|;
    var c :| c in target;
    assert LettersOfAll([]) == {};
  }

  /** A concrete instance: 'x' starts no word, so the empty chain is preferred to the covering "cab". */
  lemma {:induction false} ShortestCoversNothingExample()
    ensures FirstShortest([["cab"], []]) == Some(1)
    ensures Covers(["cab"], {'a', 'b', 'c'}) && !Covers([], {'a', 'b', 'c'})
  {
    assert "cab"[0] == 'c' && "cab"[1] == 'a' && "cab"[2] == 'b';
    assert LettersOfAll(["cab"]) == LettersOfAll([]) + Letters("cab");
  }

  /**
   The evidently intended selection: the first of the shortest chains among
   those that use every letter; None when no chain does.
   */
  function ShortestCovering(chains: seq<seq<string>>, target: set<char>): (k: Option<nat>)
    ensures k.None? <==> forall j :: 0 <= j < |chains| ==> !Covers(chains[j], target)
    ensures k.Some? ==> k.value < |chains| && Covers(chains[k.value], target)
    ensures k.Some? ==> forall j :: 0 <= j < |chains| && Covers(chains[j], target) ==> |chains[k.value]| <= |chains[j]|
    ensures k.Some? ==> forall j :: 0 <= j < k.value && Covers(chains[j], target) ==> |chains[j]| > |chains[k.value]|
  {
    if chains == [] then None
    else
      var init, last := chains[..|chains| - 1], chains[|chains| - 1];
      assert forall j :: 0 <= j < |init| ==> init[j] == chains[j];
      match ShortestCovering(init, target)
      case None => if Covers(last, target) then Some(|chains| - 1) else None
      case Some(k) => if Covers(last, target) && |last| < |chains[k]| then Some(|chains| - 1) else Some(k)
  }

  /** Words of chains over the final vocabulary are valid dictionary words. */
  lemma {:induction false} ChainsFromVocabulary(vocab: Trie, words: seq<string>, sides: seq<string>, chains: seq<seq<string>>)
    requires forall w :: w in Words(vocab) ==> w in words && IsValidWord(w, sides)
    requires forall i, j :: 0 <= i < |chains| && 0 <= j < |chains[i]| ==> chains[i][j] in Words(vocab)
    ensures forall i, j :: 0 <= i < |chains| && 0 <= j < |chains[i]| ==>
              chains[i][j] in words && IsValidWord(chains[i][j], sides)
  {
  }

  /** No valid dictionary word begins with `c`: the reason a search stops early. */
  predicate NoWordFrom(words: seq<string>, sides: seq<string>, c: char)
  {
    forall w :: w in words && IsValidWord(w, sides) ==> w[0] != c
  }

  /** A letter with no candidate in a vocabulary holding every valid dictionary word begins no such word. */
  lemma {:induction false} StuckMeansNoWord(vocab: Trie, words: seq<string>, sides: seq<string>, c: char)
    requires Wf(vocab)
    requires forall w :: w in words && IsValidWord(w, sides) ==> w in Words(vocab)
    requires Candidates(vocab, c) == []
    ensures NoWordFrom(words, sides, c)
  {
    QueryOneLetter(vocab, c);
  }

  /**
   The driver up to line 202: the final vocabulary (`all_valid_words_trie`),
   then one search per start letter, each with its own copy of all the
   puzzle's letters. Each chain is the greedy run over that vocabulary.
   */
  method SearchAll(words: seq<string>, sides: seq<string>, starts: seq<char>) returns (vocab: Trie, chains: seq<seq<string>>)
    requires Enumerates(starts, CharsOf(sides))
    ensures vocab == FinalVocabulary(words, sides, starts)
    ensures Wf(vocab)
    ensures forall w :: w in Words(vocab) <==> w in words && IsValidWord(w, sides)
    ensures |chains| == |starts|
    ensures forall i :: 0 <= i < |chains| ==> |chains[i]| <= 7 && Linked(starts[i], chains[i])
    ensures forall i, j :: 0 <= i < |chains| && 0 <= j < |chains[i]| ==>
              chains[i][j] in words && IsValidWord(chains[i][j], sides)
    ensures forall i :: 0 <= i < |chains| && |chains[i]| <= 6 && !Covers(chains[i], CharsOf(sides)) ==>
              NoWordFrom(words, sides, EndLetter(starts[i], chains[i]))
    ensures forall i :: 0 <= i < |chains| ==> Greedy(vocab, starts[i], CharsOf(sides), 7, chains[i])
    ensures forall i, j :: 0 <= i < |chains| && 0 <= j < |chains[i]| ==> !Covers(chains[i][..j], CharsOf(sides))
  {
    vocab := FinalVocabulary(words, sides, starts);
    chains := Chains(vocab, CharsOf(sides), starts);
    ChainsFromVocabulary(vocab, words, sides, chains);
    forall w | w in words && IsValidWord(w, sides) ensures w in Words(vocab) {
      ValidLetters(w, sides);
    }
    forall i | 0 <= i < |chains| && |chains[i]| <= 6 && !Covers(chains[i], CharsOf(sides))
      ensures NoWordFrom(words, sides, EndLetter(starts[i], chains[i]))
    {
      StuckMeansNoWord(vocab, words, sides, EndLetter(starts[i], chains[i]));
    }
  }

  /**
   The answer (line 205): the first shortest chain as written (`shortest`),
   and the first shortest among the chains that use every letter (`best`).
   */
  method Select(chains: seq<seq<string>>, target: set<char>) returns (shortest: Option<seq<string>>, best: Option<seq<string>>)
    ensures shortest.None? <==> chains == []
    ensures shortest.Some? ==> forall i :: 0 <= i < |chains| ==> |shortest.value| <= |chains[i]|
    ensures shortest.Some? ==> exists k :: 0 <= k < |chains| && chains[k] == shortest.value &&
                                          (forall j :: 0 <= j < k ==> |chains[j]| > |shortest.value|)
    ensures best.None? <==> forall i :: 0 <= i < |chains| ==> !Covers(chains[i], target)
    ensures best.Some? ==> Covers(best.value, target)
    ensures best.Some? ==> forall i :: 0 <= i < |chains| && Covers(chains[i], target) ==> |best.value| <= |chains[i]|
    ensures best.Some? ==> exists k :: 0 <= k < |chains| && chains[k] == best.value &&
                                      (forall j :: 0 <= j < k && Covers(chains[j], target) ==> |chains[j]| > |best.value|)
  {
    var k := FirstShortest(chains);
    shortest := if k.Some? then Some(chains[k.value]) else None;
    var b := ShortestCovering(chains, target);
    best := if b.Some? then Some(chains[b.value]) else None;
  }
}
