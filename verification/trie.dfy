/**
 A prefix trie (main.py, classes TrieNode and Trie).

 A node keeps the character it was created for (`ch`; the root keeps the empty
 string), whether a stored word ends at it, and its children in the order in
 which they were first created, which is the iteration order of the Python
 dictionary and hence the order of every query result.
 */
module Tries {
  import opened Options

  datatype Node = Node(ch: string, isEnd: bool, children: seq<Node>)

  /** A trie is its root node, whose character is the empty string. */
  type Trie = n: Node | n.ch == [] witness Node([], false, [])

  /** A fresh node for one character, with no children and no word ending at it. */
  function Leaf(c: char): Node
  {
    Node([c], false, [])
  }

  /** The empty trie: just the root. */
  function Empty(): (t: Trie)
    ensures Words(t) == {}
  {
    Node([], false, [])
  }

  /** Children are keyed by one character each and no key occurs twice; this holds of every node reachable from the root. */
  predicate Wf(n: Node)
  {
    && (forall i :: 0 <= i < |n.children| ==> |n.children[i].ch| == 1 && Wf(n.children[i]))
    && (forall i, j :: 0 <= i < j < |n.children| ==> n.children[i].ch != n.children[j].ch)
  }

  /**
   The strings spelled by the paths from `n` down to a node that ends a word,
   not counting the character of `n` itself: the abstraction of a trie to its
   set of stored words.
   */
  function Spelled(n: Node): set<string>
  {
    (if n.isEnd then {[]} else {})
    + (set i, s | 0 <= i < |n.children| && s in Spelled(n.children[i]) :: n.children[i].ch + s)
  }

  /** The set of words stored in a trie. */
  function Words(t: Trie): set<string>
  {
    Spelled(t)
  }

  /** `c in node.children`: the position of the first child created for `c`, or `|kids|` when there is none. */
  function Lookup(kids: seq<Node>, c: char): (i: nat)
    ensures i <= |kids|
    ensures i < |kids| ==> kids[i].ch == [c]
    ensures forall j :: 0 <= j < i ==> kids[j].ch != [c]
  {
    if kids == [] then 0
    else if kids[0].ch == [c] then 0
    else 1 + Lookup(kids[1..], c)
  }

  /** The walk of `Trie.insert` below `n`: follow or create a child per character, then mark the last node as an end. */
  function InsertAt(n: Node, w: string): (r: Node)
    ensures r.ch == n.ch
    decreases w
  {
    if w == [] then n.(isEnd := true)
    else
      var i := Lookup(n.children, w[0]);
      if i < |n.children| then
        n.(children := n.children[i := InsertAt(n.children[i], w[1..])])
      else
        n.(children := n.children + [InsertAt(Leaf(w[0]), w[1..])])
  }

  /** `Trie.insert`: store `w`, and nothing else. */
  function Insert(t: Trie, w: string): (r: Trie)
    ensures Words(r) == Words(t) + {w}
    ensures Wf(t) ==> Wf(r)
  {
    InsertSpelled(t, w);
    InsertWf(t, w);
    InsertAt(t, w)
  }

  /** The descent at the start of `Trie.query`: the node reached by consuming `p`, or None once a character has no child. */
  function Walk(n: Node, p: string): (r: Option<Node>)
    ensures r.Some? && p != [] ==> r.value.ch == [p[|p| - 1]]
    decreases p
  {
    if p == [] then Some(n)
    else
      var i := Lookup(n.children, p[0]);
      if i < |n.children| then Walk(n.children[i], p[1..]) else None
  }

  /**
   `Trie.dfs`: in pre-order, the word ending at `n` (if any) and then those
   below each child in turn; each node extends the path with its own
   character, so every emitted string begins with `prefix + n.ch`.
   */
  function Dfs(n: Node, prefix: string): (r: seq<string>)
    ensures forall s :: s in r ==> prefix + n.ch <= s
    decreases n, 1
  {
    (if n.isEnd then [prefix + n.ch] else []) + DfsFrom(n, 0, prefix + n.ch)
  }

  /** The loop over `node.children.values()` in `Trie.dfs`, from the `i`-th child on. */
  function DfsFrom(n: Node, i: nat, path: string): (r: seq<string>)
    requires i <= |n.children|
    ensures forall s :: s in r ==> path <= s
    decreases n, 0, |n.children| - i
  {
    if i == |n.children| then []
    else Dfs(n.children[i], path) + DfsFrom(n, i + 1, path)
  }

  /** All but the last character of `x` (Python's `x[:-1]`, which is empty for an empty `x`). */
  function DropLast(x: string): string
  {
    if x == [] then [] else x[..|x| - 1]
  }

  /**
   `Trie.query`: the stored words that start with `x`, in depth-first
   pre-order below the node `x` leads to; empty as soon as a character of `x`
   has no child.
   */
  function Query(t: Trie, x: string): (r: seq<string>)
    ensures Walk(t, x) == None ==> r == []
    ensures forall s :: s in r ==> x <= s && s in Words(t)
  {
    match Walk(t, x)
    case None => []
    case Some(m) =>
      ReachedSound(t, x);
      Dfs(m, DropLast(x))
  }

  // ---------------------------------------------------------------------------
  // Insertion

  /** One step into the set comprehension of `Spelled`: a word below child `j`, behind that child's character. */
  lemma {:induction false} SpelledChild(n: Node, j: nat, s: string)
    requires j < |n.children| && s in Spelled(n.children[j])
    ensures n.children[j].ch + s in Spelled(n)
  {
  }

  /** The converse step: a word spelled below `n` ends at `n` or passes through some child. */
  lemma {:induction false} SpelledCases(n: Node, x: string) returns (j: nat, s: string)
    requires x in Spelled(n)
    requires x != [] || !n.isEnd
    ensures j < |n.children| && s in Spelled(n.children[j]) && x == n.children[j].ch + s
  {
    j, s :| 0 <= j < |n.children| && s in Spelled(n.children[j]) && x == n.children[j].ch + s;
  }

  /** Two nodes with the same end mark whose children spell the same words spell the same words. */
  lemma {:induction false} SpelledSameKids(a: Node, b: Node)
    requires a.isEnd == b.isEnd && |a.children| == |b.children|
    requires forall j :: 0 <= j < |a.children| ==>
               a.children[j].ch == b.children[j].ch && Spelled(a.children[j]) == Spelled(b.children[j])
    ensures Spelled(a) == Spelled(b)
  {
    forall x | x in Spelled(a) ensures x in Spelled(b) {
      if x != [] || !a.isEnd {
        var j, s := SpelledCases(a, x);
        SpelledChild(b, j, s);
      }
    }
    forall x | x in Spelled(b) ensures x in Spelled(a) {
      if x != [] || !b.isEnd {
        var j, s := SpelledCases(b, x);
        SpelledChild(a, j, s);
      }
    }
  }

  /** Replacing child `i` by one that spells one more word `s` makes the parent spell `ch + s` more. */
  lemma {:induction false} SpelledReplace(n: Node, i: nat, k: Node, s: string)
    requires i < |n.children| && k.ch == n.children[i].ch
    requires Spelled(k) == Spelled(n.children[i]) + {s}
    ensures Spelled(n.(children := n.children[i := k])) == Spelled(n) + {k.ch + s}
  {
    var r := n.(children := n.children[i := k]);
    forall x | x in Spelled(r) ensures x in Spelled(n) + {k.ch + s} {
      if x != [] || !r.isEnd {
        var j, v := SpelledCases(r, x);
        if j != i || v != s {
          SpelledChild(n, j, v);
        }
      }
    }
    forall x | x in Spelled(n) + {k.ch + s} ensures x in Spelled(r) {
      if x == k.ch + s {
        SpelledChild(r, i, s);
      } else if x != [] || !n.isEnd {
        var j, v := SpelledCases(n, x);
        SpelledChild(r, j, v);
      }
    }
  }

  /** Appending a child that spells only `s` makes the parent spell `ch + s` more. */
  lemma {:induction false} SpelledAppend(n: Node, k: Node, s: string)
    requires Spelled(k) == {s}
    ensures Spelled(n.(children := n.children + [k])) == Spelled(n) + {k.ch + s}
  {
    SpelledAppendSub(n, k, s);
    SpelledAppendSuper(n, k, s);
  }

  lemma {:induction false} SpelledAppendSub(n: Node, k: Node, s: string)
    requires Spelled(k) == {s}
    ensures Spelled(n.(children := n.children + [k])) <= Spelled(n) + {k.ch + s}
  {
    forall x | x in Spelled(n.(children := n.children + [k])) ensures x in Spelled(n) || x == k.ch + s {
      SpelledAppendSubAt(n, k, s, x);
    }
  }

  lemma {:induction false} SpelledAppendSubAt(n: Node, k: Node, s: string, x: string)
    requires Spelled(k) == {s}
    requires x in Spelled(n.(children := n.children + [k]))
    ensures x in Spelled(n) || x == k.ch + s
  {
    var r := n.(children := n.children + [k]);
    if x != [] || !r.isEnd {
      var j, v := SpelledCases(r, x);
      if j < |n.children| {
        assert r.children[j] == n.children[j];
        SpelledChild(n, j, v);
      } else {
        assert r.children[j] == k;
      }
    }
  }

  lemma {:induction false} SpelledAppendSuper(n: Node, k: Node, s: string)
    requires Spelled(k) == {s}
    ensures Spelled(n) + {k.ch + s} <= Spelled(n.(children := n.children + [k]))
  {
    var r := n.(children := n.children + [k]);
    forall x | x in Spelled(n) + {k.ch + s} ensures x in Spelled(r) {
      if x == k.ch + s {
        assert r.children[|n.children|] == k;
        SpelledChild(r, |n.children|, s);
      } else if x != [] || !n.isEnd {
        var j, v := SpelledCases(n, x);
        assert r.children[j] == n.children[j];
        SpelledChild(r, j, v);
      }
    }
  }

  /** The first child keyed `c` is the one at `i` when none before it is. */
  lemma {:induction false} LookupAt(kids: seq<Node>, c: char, i: nat)
    requires i < |kids| && kids[i].ch == [c]
    requires forall j :: 0 <= j < i ==> kids[j].ch != [c]
    ensures Lookup(kids, c) == i
  {
  }

  lemma {:induction false} InsertSpelled(n: Node, w: string)
    ensures Spelled(InsertAt(n, w)) == Spelled(n) + {w}
    decreases w
  {
    if w == [] {
      SpelledSameKids(InsertAt(n, w), n.(isEnd := true));
    } else {
      var c, rest := w[0], w[1..];
      assert w == [c] + rest;
      var i := Lookup(n.children, c);
      if i < |n.children| {
        InsertSpelled(n.children[i], rest);
        SpelledReplace(n, i, InsertAt(n.children[i], rest), rest);
      } else {
        InsertSpelled(Leaf(c), rest);
        assert Spelled(Leaf(c)) == {};
        SpelledAppend(n, InsertAt(Leaf(c), rest), rest);
      }
    }
  }

  lemma {:induction false} InsertWf(n: Node, w: string)
    ensures Wf(n) ==> Wf(InsertAt(n, w))
    decreases w
  {
    if w != [] {
      var i := Lookup(n.children, w[0]);
      if i < |n.children| {
        InsertWf(n.children[i], w[1..]);
      } else {
        InsertWf(Leaf(w[0]), w[1..]);
      }
    }
  }

  /** Inserting a word a second time changes nothing at all, not only the set of stored words. */
  lemma {:induction false} InsertIdempotent(n: Node, w: string)
    ensures InsertAt(InsertAt(n, w), w) == InsertAt(n, w)
    decreases w
  {
    if w != [] {
      var r := InsertAt(n, w);
      var i := Lookup(n.children, w[0]);
      LookupAt(r.children, w[0], i);
      if i < |n.children| {
        InsertIdempotent(n.children[i], w[1..]);
      } else {
        InsertIdempotent(Leaf(w[0]), w[1..]);
      }
    }
  }

  // ---------------------------------------------------------------------------
  // Query

  /** A word spelled below the node `p` reaches, appended to `p`, is spelled below `n`. */
  lemma {:induction false} WalkSpelled(n: Node, p: string, m: Node, u: string)
    requires Walk(n, p) == Some(m) && u in Spelled(m)
    ensures p + u in Spelled(n)
    decreases p
  {
    if p == [] {
      assert p + u == u;
    } else {
      var i := Lookup(n.children, p[0]);
      assert i < |n.children|;
      var k, q := n.children[i], p[1..];
      assert Walk(k, q) == Some(m);
      WalkSpelled(k, q, m, u);
      assert p + u == k.ch + (q + u) by {
        assert k.ch == [p[0]];
        assert p == [p[0]] + q;
      }
      SpelledChild(n, i, q + u);
    }
  }

  /** What the traversal below the node `x` reaches emits are stored words starting with `x`. */
  lemma {:induction false} ReachedSound(t: Trie, x: string)
    requires Walk(t, x).Some?
    ensures forall s :: s in Dfs(Walk(t, x).value, DropLast(x)) ==> x <= s && s in Spelled(t)
  {
    var m := Walk(t, x).value;
    DfsSound(m, DropLast(x));
    assert DropLast(x) + m.ch == x;
    forall s | s in Dfs(m, DropLast(x))
      ensures x <= s && s in Spelled(t)
    {
      var u :| u in Spelled(m) && s == DropLast(x) + m.ch + u;
      assert s == x + u;
      WalkSpelled(t, x, m, u);
    }
  }

  /** With well-formed children, a stored word starting with `p` is found below the node `p` reaches. */
  lemma {:induction false} WalkComplete(n: Node, p: string, u: string)
    requires Wf(n)
    requires p + u in Spelled(n)
    ensures Walk(n, p).Some? && u in Spelled(Walk(n, p).value)
    decreases p
  {
    if p == [] {
      assert p + u == u;
    } else {
      var c := p[0];
      var x := p + u;
      assert x != [];
      var j, s := SpelledCases(n, x);
      var k := n.children[j];
      assert |k.ch| == 1 && x[0] == k.ch[0];
      assert k.ch == [c];
      LookupAt(n.children, c, j);
      assert x[1..] == s;
      assert s == p[1..] + u;
      WalkComplete(n.children[j], p[1..], u);
    }
  }

  /** What `Trie.dfs` emits is exactly `prefix + n.ch` followed by a word spelled below `n`. */
  lemma {:induction false} DfsSound(n: Node, prefix: string)
    ensures forall s :: s in Dfs(n, prefix) ==> exists u :: u in Spelled(n) && s == prefix + n.ch + u
    decreases n, 1
  {
    DfsFromSound(n, 0, prefix + n.ch);
    forall s | s in Dfs(n, prefix)
      ensures exists u :: u in Spelled(n) && s == prefix + n.ch + u
    {
      if s in DfsFrom(n, 0, prefix + n.ch) {
        var j, u :| 0 <= j < |n.children| && u in Spelled(n.children[j]) && s == prefix + n.ch + n.children[j].ch + u;
        assert n.children[j].ch + u in Spelled(n);
        assert s == prefix + n.ch + (n.children[j].ch + u);
      } else {
        assert [] in Spelled(n);
        assert s == prefix + n.ch + [];
      }
    }
  }

  lemma {:induction false} DfsFromSound(n: Node, i: nat, path: string)
    requires i <= |n.children|
    ensures forall s :: s in DfsFrom(n, i, path) ==>
              exists j, u :: i <= j < |n.children| && u in Spelled(n.children[j]) && s == path + n.children[j].ch + u
    decreases n, 0, |n.children| - i
  {
    if i < |n.children| {
      DfsSound(n.children[i], path);
      DfsFromSound(n, i + 1, path);
    }
  }

  /** Every word spelled below `n` is emitted by `Trie.dfs`. */
  lemma {:induction false} DfsComplete(n: Node, prefix: string, u: string)
    requires u in Spelled(n)
    ensures prefix + n.ch + u in Dfs(n, prefix)
    decreases n, 1
  {
    if u == [] && n.isEnd {
      assert prefix + n.ch + u == prefix + n.ch;
    } else {
      var j, s :| 0 <= j < |n.children| && s in Spelled(n.children[j]) && u == n.children[j].ch + s;
      assert prefix + n.ch + u == (prefix + n.ch) + n.children[j].ch + s;
      DfsFromComplete(n, 0, prefix + n.ch, j, s);
    }
  }

  lemma {:induction false} DfsFromComplete(n: Node, i: nat, path: string, j: nat, s: string)
    requires i <= j < |n.children|
    requires s in Spelled(n.children[j])
    ensures path + n.children[j].ch + s in DfsFrom(n, i, path)
    decreases n, 0, |n.children| - i
  {
    if i == j {
      DfsComplete(n.children[j], path, s);
    } else {
      DfsFromComplete(n, i + 1, path, j, s);
    }
  }

  /** `Trie.query` returns exactly the stored words that start with `x`. */
  lemma {:induction false} QueryExact(t: Trie, x: string, s: string)
    requires Wf(t)
    ensures s in Query(t, x) <==> s in Words(t) && x <= s
  {
    if s in Words(t) && x <= s {
      var u := s[|x|..];
      assert s == x + u;
      ReachedComplete(t, x, u);
    }
  }

  /** A stored word `x + u` is among the results of querying `x`. */
  lemma {:induction false} ReachedComplete(t: Trie, x: string, u: string)
    requires Wf(t) && x + u in Words(t)
    ensures x + u in Query(t, x)
  {
    WalkComplete(t, x, u);
    var m := Walk(t, x).value;
    assert Query(t, x) == Dfs(m, DropLast(x));
    DfsComplete(m, DropLast(x), u);
    assert DropLast(x) + m.ch == x;
  }

  /** After `insert(w)` a query for `w` returns `w`, and whatever any query returned before it still returns. */
  lemma {:induction false} InsertThenQuery(t: Trie, w: string, p: string, v: string)
    requires Wf(t)
    ensures w in Query(Insert(t, w), w)
    ensures v in Query(t, p) ==> v in Query(Insert(t, w), p)
  {
    var t' := Insert(t, w);
    QueryExact(t', w, w);
    QueryExact(t, p, v);
    QueryExact(t', p, v);
  }

  /** No string occurs twice. */
  predicate Distinct(ws: seq<string>)
  {
    forall i, j :: 0 <= i < j < |ws| ==> ws[i] != ws[j]
  }

  lemma {:induction false} DistinctConcat(a: seq<string>, b: seq<string>)
    requires Distinct(a) && Distinct(b)
    requires forall x :: x in a ==> x !in b
    ensures Distinct(a + b)
  {
    var ab := a + b;
    forall i, j | 0 <= i < j < |ab| ensures ab[i] != ab[j] {
      if i < |a| && j >= |a| {
        assert ab[i] in a && ab[j] == b[j - |a|];
      } else if i >= |a| {
        assert ab[i] == b[i - |a|] && ab[j] == b[j - |a|];
      }
    }
  }

  /** In a well-formed trie the traversal emits every word once. */
  lemma {:induction false} DfsDistinct(n: Node, prefix: string)
    requires Wf(n)
    ensures Distinct(Dfs(n, prefix))
    decreases n, 1
  {
    var path := prefix + n.ch;
    DfsFromDistinct(n, 0, path);
    DfsFromSound(n, 0, path);
    if n.isEnd {
      forall x | x in DfsFrom(n, 0, path) ensures x !in [path] {
        assert |x| > |path|;
      }
      DistinctConcat([path], DfsFrom(n, 0, path));
    } else {
      assert Dfs(n, prefix) == DfsFrom(n, 0, path);
    }
  }

  lemma {:induction false} DfsFromDistinct(n: Node, i: nat, path: string)
    requires Wf(n) && i <= |n.children|
    ensures Distinct(DfsFrom(n, i, path))
    decreases n, 0, |n.children| - i
  {
    if i < |n.children| {
      var k := n.children[i];
      DfsDistinct(k, path);
      DfsFromDistinct(n, i + 1, path);
      DfsSound(k, path);
      DfsFromSound(n, i + 1, path);
      DfsFromBranch(n, i + 1, path, k.ch[0]);
      forall x | x in Dfs(k, path) ensures x !in DfsFrom(n, i + 1, path) {
        assert path + k.ch <= x;
        assert x[|path|] == k.ch[0];
      }
      DistinctConcat(Dfs(k, path), DfsFrom(n, i + 1, path));
    }
  }

  /** Below the children from `i` on, the character after `path` is never one those children are not keyed by. */
  lemma {:induction false} DfsFromBranch(n: Node, i: nat, path: string, c: char)
    requires Wf(n) && 0 < i <= |n.children| && n.children[i - 1].ch == [c]
    ensures forall y :: y in DfsFrom(n, i, path) ==> |y| > |path| && y[|path|] != c
  {
    DfsFromSound(n, i, path);
    forall y | y in DfsFrom(n, i, path) ensures |y| > |path| && y[|path|] != c {
      var j, u :| i <= j < |n.children| && u in Spelled(n.children[j]) && y == path + n.children[j].ch + u;
      var kj := n.children[j];
      assert |kj.ch| == 1 && kj.ch != [c];
      assert y[|path|] == kj.ch[0];
      assert kj.ch == [kj.ch[0]];
    }
  }

  /** `Trie.query` on a well-formed trie lists no word twice. */
  lemma {:induction false} QueryDistinct(t: Trie, x: string)
    requires Wf(t)
    ensures Distinct(Query(t, x))
  {
    match Walk(t, x)
    case None =>
    case Some(m) =>
      WalkWf(t, x);
      DfsDistinct(m, DropLast(x));
  }

  lemma {:induction false} WalkWf(n: Node, p: string)
    requires Wf(n) && Walk(n, p).Some?
    ensures Wf(Walk(n, p).value)
    decreases p
  {
    if p != [] {
      WalkWf(n.children[Lookup(n.children, p[0])], p[1..]);
    }
  }
}
