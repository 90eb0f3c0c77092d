/** Letters of words, the `set(word)` of main.py. */
module Text {

  /** The set of characters occurring in `w`. */
  function Letters(w: string): set<char>
  {
    set i | 0 <= i < |w| :: w[i]
  }

  /** The characters occurring in any of the words of `ws`. */
  function LettersOfAll(ws: seq<string>): set<char>
  {
    if ws == [] then {} else LettersOfAll(ws[..|ws| - 1]) + Letters(ws[|ws| - 1])
  }
}
