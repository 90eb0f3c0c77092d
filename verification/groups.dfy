/**
 The group-alternation rule (main.py, `is_valid_word`): every letter of a word
 must belong to one of the groups (the sides of the box), and consecutive
 letters must come from different groups; words shorter than three letters
 are refused.
 */
module Groups {
  import opened Options
  import opened Text

  /** `c` belongs to some group. */
  predicate InGroup(c: char, groups: seq<string>)
  {
    exists g :: 0 <= g < |groups| && c in groups[g]
  }

  /** Some group contains both `a` and `b`. */
  predicate SameGroup(a: char, b: char, groups: seq<string>)
  {
    exists g :: 0 <= g < |groups| && a in groups[g] && b in groups[g]
  }

  /** Every letter of `w` belongs to some group. */
  predicate Covered(w: string, groups: seq<string>)
  {
    forall i :: 0 <= i < |w| ==> InGroup(w[i], groups)
  }

  /** No two adjacent letters of `w` belong to a common group. */
  predicate Alternates(w: string, groups: seq<string>)
  {
    forall i :: 0 < i < |w| ==> !SameGroup(w[i - 1], w[i], groups)
  }

  /** No character lies in two groups (the shape of a real puzzle). */
  predicate Disjoint(groups: seq<string>)
  {
    forall g, h, c :: 0 <= g < h < |groups| && c in groups[g] ==> c !in groups[h]
  }

  /** `all_chars` (main.py lines 102-105): the letters collected side by side. */
  function CharsOf(groups: seq<string>): (r: set<char>)
    ensures forall c :: c in r <==> InGroup(c, groups)
  {
    CollectedLetters(groups);
    LettersOfAll(groups)
  }

  /** Collecting the letters group by group gathers exactly the characters lying in some group. */
  lemma {:induction false} CollectedLetters(groups: seq<string>)
    ensures forall c :: c in LettersOfAll(groups) <==> InGroup(c, groups)
  {
    if groups != [] {
      var init, last := groups[..|groups| - 1], groups[|groups| - 1];
      CollectedLetters(init);
      forall c ensures c in LettersOfAll(groups) <==> InGroup(c, groups) {
        if c in Letters(last) {
          var i :| 0 <= i < |last| && last[i] == c;
          assert c in groups[|groups| - 1];
        } else if c in LettersOfAll(init) {
          var g :| 0 <= g < |init| && c in init[g];
          assert c in groups[g];
        }
        if InGroup(c, groups) {
          var g :| 0 <= g < |groups| && c in groups[g];
          if g < |init| {
            assert c in init[g];
          } else {
            var i :| 0 <= i < |last| && last[i] == c;
            assert c in Letters(last);
          }
        }
      }
    }
  }

  /**
   The inner loop over the groups for one character, from the `i`-th group on:
   the position of the first group that contains `c` and is not, by value,
   the current group; None when there is none.
   */
  function NextGroup(c: char, groups: seq<string>, current: Option<string>, i: nat): (r: Option<nat>)
    requires i <= |groups|
    ensures r.Some? ==> i <= r.value < |groups| && c in groups[r.value] && current != Some(groups[r.value])
    ensures r.Some? ==> forall j :: i <= j < r.value ==> c !in groups[j] || current == Some(groups[j])
    ensures r.None? ==> forall j :: i <= j < |groups| ==> c !in groups[j] || current == Some(groups[j])
    decreases |groups| - i
  {
    if i == |groups| then None
    else if c in groups[i] && current != Some(groups[i]) then Some(i)
    else NextGroup(c, groups, current, i + 1)
  }

  /** The outer loop over the characters of the word, with the group the previous character was placed in. */
  /**
   The outer loop over the characters of the word, with the group the
   previous character was placed in. A word it accepts has every letter in
   some group.
   */
  function Scan(w: string, groups: seq<string>, current: Option<string>): (r: bool)
    ensures r ==> Covered(w, groups)
    decreases w
  {
    if w == [] then true
    else
      match NextGroup(w[0], groups, current, 0)
      case None => false
      case Some(g) =>
        var r := Scan(w[1..], groups, Some(groups[g]));
        assert r ==> forall i :: 1 <= i < |w| ==> w[i] == w[1..][i - 1];
        r
  }

  /** `is_valid_word`: a valid word has at least three letters, and each of them lies in some group. */
  function IsValidWord(w: string, groups: seq<string>): (r: bool)
    ensures r ==> |w| >= 3 && Covered(w, groups)
  {
    |w| >= 3 && Scan(w, groups, None)
  }

  // ---------------------------------------------------------------------------

  /** A character in no group makes any word invalid, whatever its length. */
  lemma {:induction false} OutsideCharInvalid(w: string, groups: seq<string>, i: nat)
    requires i < |w| && !InGroup(w[i], groups)
    ensures !IsValidWord(w, groups)
  {
  }

  /**
   With disjoint groups the scan after a letter `p` of group `g` accepts
   exactly the words whose letters all lie in groups and that alternate
   when `p` is put in front.
   */
  lemma {:induction false} ScanAfter(w: string, groups: seq<string>, g: nat, p: char)
    requires Disjoint(groups)
    requires g < |groups| && p in groups[g]
    ensures Scan(w, groups, Some(groups[g])) <==> Covered(w, groups) && Alternates([p] + w, groups)
    decreases w
  {
    if w != [] {
      var c, rest := w[0], w[1..];
      var pw := [p] + w;
      assert pw[0] == p && pw[1] == c;
      assert [c] + rest == w;
      assert pw[1..] == w;
      CoveredCons(c, rest, groups);
      AlternatesCons(p, w, groups);
      match NextGroup(c, groups, Some(groups[g]), 0)
      case None =>
        if InGroup(c, groups) {
          var h :| 0 <= h < |groups| && c in groups[h];
          assert groups[h] == groups[g];
          assert SameGroup(p, c, groups);
        }
      case Some(h) =>
        ScanAfter(rest, groups, h, c);
    }
  }

  lemma {:induction false} CoveredCons(c: char, rest: string, groups: seq<string>)
    ensures Covered([c] + rest, groups) <==> InGroup(c, groups) && Covered(rest, groups)
  {
    var w := [c] + rest;
    if InGroup(c, groups) && Covered(rest, groups) {
      forall i | 0 <= i < |w| ensures InGroup(w[i], groups) {
        if i > 0 {
          assert w[i] == rest[i - 1];
        }
      }
    }
    if Covered(w, groups) {
      assert w[0] == c;
      forall i | 0 <= i < |rest| ensures InGroup(rest[i], groups) {
        assert rest[i] == w[i + 1];
      }
    }
  }

  lemma {:induction false} AlternatesCons(p: char, w: string, groups: seq<string>)
    requires w != []
    ensures Alternates([p] + w, groups) <==> !SameGroup(p, w[0], groups) && Alternates(w, groups)
  {
    var pw := [p] + w;
    assert pw[0] == p && pw[1] == w[0];
    if !SameGroup(p, w[0], groups) && Alternates(w, groups) {
      forall i | 0 < i < |pw| ensures !SameGroup(pw[i - 1], pw[i], groups) {
        if i > 1 {
          assert pw[i - 1] == w[i - 2] && pw[i] == w[i - 1];
        }
      }
    }
    if Alternates(pw, groups) {
      forall i | 0 < i < |w| ensures !SameGroup(w[i - 1], w[i], groups) {
        assert pw[i] == w[i - 1] && pw[i + 1] == w[i];
      }
    }
  }

  /**
   With disjoint groups (a real puzzle's sides), `is_valid_word` holds
   exactly of the words of at least three letters, all in groups, no two
   adjacent letters in one group.
   */
  lemma {:induction false} ValidIffAlternates(w: string, groups: seq<string>)
    requires Disjoint(groups)
    ensures IsValidWord(w, groups) <==> |w| >= 3 && Covered(w, groups) && Alternates(w, groups)
  {
    if |w| >= 3 {
      var c := w[0];
      CoveredCons(c, w[1..], groups);
      assert [c] + w[1..] == w;
      match NextGroup(c, groups, None, 0)
      case None =>
      case Some(g) =>
        ScanAfter(w[1..], groups, g, c);
        AlternatesCons(c, w[1..], groups);
    }
  }

  /**
   Overlapping groups: the loop does not stop at the current group, so a
   letter that shares the current group can still be placed in a later group
   that also holds it; "abd" passes although 'a' and 'b' share group "ab".
   */
  lemma {:induction false} OverlapAccepted()
    ensures IsValidWord("abd", ["ab", "bc", "d"])
    ensures SameGroup('a', 'b', ["ab", "bc", "d"])
  {
    assert "ab"[0] == 'a' && "ab"[1] == 'b';
  }

  /** The adjacency example: with groups "ab" and "cd", "abc" is refused and "acb" accepted. */
  lemma {:induction false} AdjacencyExample()
    ensures !IsValidWord("abc", ["ab", "cd"])
    ensures IsValidWord("acb", ["ab", "cd"])
  {
  }
}
