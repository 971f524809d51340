/**
  * The trie that minilex builds from a set of strings, and why every string of a prefix-free set ends
  * at a terminal of its own.
  */
module Trie {
  import opened Bytes

  /** An edge to a later state, or the terminal marker of string number `c` (where `to` is 0). */
  datatype Edge = Edge(c: nat, to: nat)

  /** The edges of each state, in the order they were added. */
  type Graph = seq<seq<Edge>>

  type Words = seq<seq<byte>>

  predicate PrefixFree(words: Words)
  {
    forall i, j | 0 <= i < |words| && 0 <= j < |words| && i != j && words[i] != [] && words[j] != [] ::
      !(words[i] <= words[j])
  }

  /** Strings of characters that are neither markers nor have bit 7 set, and indices that fit a char. */
  predicate Legal(words: Words)
  {
    && |words| <= 128
    && PrefixFree(words)
    && forall i, m | 0 <= i < |words| && 0 <= m < |words[i]| :: 9 <= words[i][m] < 128
  }

  // ----- the shape of the trie; path[i] spells the way from state 0 to state i -----

  ghost predicate EdgeOk(g: Graph, path: Words, i: nat, m: nat)
    requires i < |g| == |path| && m < |g[i]|
  {
    var e := g[i][m];
    e.to != 0 ==> i < e.to < |g| && 9 <= e.c < 128 && path[e.to] == path[i] + [e.c]
  }

  ghost predicate HasParent(g: Graph, i: nat)
  {
    exists p, m :: 0 <= p < |g| && 0 <= m < |g[p]| && g[p][m].to == i
  }

  ghost predicate Shape(g: Graph, path: Words)
  {
    && 1 <= |g| == |path|
    && path[0] == []
    && (forall i, j | 0 <= i < j < |path| :: path[i] != path[j])
    && (forall i, m | 0 <= i < |g| && 0 <= m < |g[i]| :: EdgeOk(g, path, i, m))
    && (forall i, y, z | 0 <= i < |g| && 0 <= y < z < |g[i]| :: g[i][y].c != g[i][z].c)
    && (forall i | 0 < i < |g| :: HasParent(g, i))
  }

  /** A terminal marker is the only edge of its state, and belongs to one of the first `n` words. */
  ghost predicate TerminalOk(g: Graph, path: Words, words: Words, n: nat, i: nat)
    requires i < |g| == |path| && n <= |words|
  {
    (exists m | 0 <= m < |g[i]| :: g[i][m].to == 0) ==>
      |g[i]| == 1 && g[i][0].c < n && words[g[i][0].c] == path[i] != []
  }

  /** The state where word `w` ends. */
  ghost predicate EndsAt(g: Graph, path: Words, words: Words, w: nat, i: nat)
  {
    i < |g| == |path| && w < |words| && path[i] == words[w] && g[i] == [Edge(w, 0)]
  }

  /** The first `n` words have been inserted. */
  ghost predicate Terminals(g: Graph, path: Words, words: Words, n: nat)
    requires |g| == |path| && n <= |words|
  {
    && (forall i | 0 <= i < |g| :: TerminalOk(g, path, words, n, i))
    && (forall w | 0 <= w < n && words[w] != [] :: exists i: nat :: EndsAt(g, path, words, w, i))
  }

  ghost predicate CoveredBy(s: seq<byte>, words: Words, k: nat)
    requires k <= |words|
  {
    exists w | 0 <= w < k :: words[w] != [] && s <= words[w]
  }

  /** Every state but the root lies on the way to one of the first `k` words. */
  ghost predicate Covered(path: Words, words: Words, k: nat)
    requires k <= |words|
  {
    forall i | 0 < i < |path| :: CoveredBy(path[i], words, k)
  }

  // ----- inserting one character -----

  /** A state that some word passes through is not a terminal. */
  lemma NotTerminal(g: Graph, path: Words, words: Words, n: nat, walk: nat, m: nat)
    requires Legal(words) && Shape(g, path) && n < |words| && Terminals(g, path, words, n)
    requires walk < |g| && m <= |words[n]| && words[n] != [] && path[walk] == words[n][..m]
    ensures forall y | 0 <= y < |g[walk]| :: g[walk][y].to != 0
  {
    assert TerminalOk(g, path, words, n, walk);
    forall w | 0 <= w < n && words[w] != [] ensures words[w] != path[walk] {
      NotBegun(words, w, n, m);
    }
  }

  /** No word is the beginning of another. */
  lemma NotBegun(words: Words, v: nat, w: nat, m: nat)
    requires Legal(words) && v < |words| && w < |words| && words[v] != [] && words[w] != []
    requires m <= |words[w]| && (v != w || m < |words[w]|)
    ensures words[v] != words[w][..m]
  {
    assert words[w][..m] <= words[w];
  }

  /** The graph with a new state behind a new edge of `walk`. */
  function Grow(g: Graph, walk: nat, c: nat): Graph
    requires walk < |g|
  {
    g[walk := g[walk] + [Edge(c, |g|)]] + [[]]
  }

  lemma GrowFresh(g: Graph, path: Words, walk: nat, c: byte)
    requires Shape(g, path) && walk < |g|
    requires forall y | 0 <= y < |g[walk]| :: g[walk][y].c != c
    ensures path[walk] + [c] !in path
  {
    forall i | 0 <= i < |path| ensures path[i] != path[walk] + [c] {
      if i > 0 {
        assert HasParent(g, i);
        var p, y :| 0 <= p < |g| && 0 <= y < |g[p]| && g[p][y].to == i;
        assert EdgeOk(g, path, p, y);
        assert path[p] != path[walk] || g[p][y].c != c;
        SnocDiffers(path[p], g[p][y].c, path[walk], c);
      }
    }
  }

  lemma SnocDiffers(a: seq<byte>, x: byte, b: seq<byte>, y: byte)
    requires a != b || x != y
    ensures a + [x] != b + [y]
  {
    if |a| == |b| {
      assert a == (a + [x])[..|a|] && b == (b + [y])[..|b|];
      assert (a + [x])[|a|] == x && (b + [y])[|b|] == y;
    }
  }

  lemma GrowShape(g: Graph, path: Words, walk: nat, c: byte)
    requires Shape(g, path) && walk < |g| && 9 <= c < 128
    requires forall y | 0 <= y < |g[walk]| :: g[walk][y].c != c
    ensures Shape(Grow(g, walk, c), path + [path[walk] + [c]])
  {
    var g', path' := Grow(g, walk, c), path + [path[walk] + [c]];
    GrowFresh(g, path, walk, c);
    forall i, m | 0 <= i < |g'| && 0 <= m < |g'[i]| ensures EdgeOk(g', path', i, m) {
      if i < |g| && m < |g[i]| {
        assert EdgeOk(g, path, i, m);
        assert g'[i][m] == g[i][m];
      }
    }
    forall i | 0 < i < |g'| ensures HasParent(g', i) {
      if i < |g| {
        assert HasParent(g, i);
        var p, m :| 0 <= p < |g| && 0 <= m < |g[p]| && g[p][m].to == i;
        assert g'[p][m].to == i;
      } else {
        assert g'[walk][|g[walk]|].to == i;
      }
    }
  }

  lemma GrowTerminals(g: Graph, path: Words, words: Words, n: nat, walk: nat, c: byte)
    requires Shape(g, path) && n <= |words| && walk < |g| && Terminals(g, path, words, n)
    requires forall y | 0 <= y < |g[walk]| :: g[walk][y].to != 0
    ensures Terminals(Grow(g, walk, c), path + [path[walk] + [c]], words, n)
  {
    var g', path' := Grow(g, walk, c), path + [path[walk] + [c]];
    forall i | 0 <= i < |g'| ensures TerminalOk(g', path', words, n, i) {
      if i < |g| && i != walk {
        assert TerminalOk(g, path, words, n, i);
      }
    }
    forall w | 0 <= w < n && words[w] != [] ensures exists i: nat :: EndsAt(g', path', words, w, i) {
      var i: nat :| EndsAt(g, path, words, w, i);
      assert g[i][0].to == 0;
      assert EndsAt(g', path', words, w, i);
    }
  }

  // ----- ending one word -----

  /** No word of a prefix-free set is continued by another. */
  lemma NotBeginning(words: Words, w: nat, n: nat)
    requires Legal(words) && w < |words| && n < |words| && words[w] != [] && words[n] != []
    ensures forall c: byte :: !(words[n] + [c] <= words[w])
  {
    forall c: byte ensures !(words[n] + [c] <= words[w]) {
      var longer := words[n] + [c];
      assert words[n] <= longer;
      if w != n {
        NoExtension(words[n], longer, words[w]);
      }
    }
  }

  lemma NoExtension(a: seq<byte>, b: seq<byte>, d: seq<byte>)
    requires a <= b && !(a <= d)
    ensures !(b <= d)
  {
    if |a| <= |d| {
      var i :| 0 <= i < |a| && a[i] != d[i];
      assert b[i] != d[i];
    }
  }

  /** The end of word `n` is a state without edges: no other word goes through it or ends there. */
  lemma EndIsFresh(g: Graph, path: Words, words: Words, n: nat, walk: nat)
    requires Legal(words) && Shape(g, path) && n < |words| && words[n] != []
    requires Terminals(g, path, words, n) && Covered(path, words, n + 1)
    requires walk < |g| && path[walk] == words[n]
    ensures g[walk] == []
  {
    NotTerminal(g, path, words, n, walk, |words[n]|);
    if g[walk] != [] {
      var t := g[walk][0].to;
      assert EdgeOk(g, path, walk, 0);
      assert CoveredBy(path[t], words, n + 1);
      var w :| 0 <= w < n + 1 && words[w] != [] && path[t] <= words[w];
      NotBeginning(words, w, n);
      assert false;
    }
  }

  function Mark(g: Graph, walk: nat, n: nat): Graph
    requires walk < |g|
  {
    g[walk := [Edge(n, 0)]]
  }

  lemma MarkShape(g: Graph, path: Words, walk: nat, n: nat)
    requires Shape(g, path) && walk < |g| && g[walk] == []
    ensures Shape(Mark(g, walk, n), path)
  {
    var g' := Mark(g, walk, n);
    forall i, m | 0 <= i < |g'| && 0 <= m < |g'[i]| ensures EdgeOk(g', path, i, m) {
      if i != walk {
        assert EdgeOk(g, path, i, m);
      }
    }
    forall i | 0 < i < |g'| ensures HasParent(g', i) {
      assert HasParent(g, i);
      var p, m :| 0 <= p < |g| && 0 <= m < |g[p]| && g[p][m].to == i;
      assert g'[p][m].to == i;
    }
  }

  lemma MarkTerminals(g: Graph, path: Words, words: Words, n: nat, walk: nat)
    requires Shape(g, path) && n < |words| && words[n] != [] && walk < |g| && g[walk] == []
    requires Terminals(g, path, words, n) && path[walk] == words[n]
    ensures Terminals(Mark(g, walk, n), path, words, n + 1)
  {
    var g', n' := Mark(g, walk, n), n + 1;
    forall i | 0 <= i < |g'| ensures TerminalOk(g', path, words, n', i) {
      if i != walk {
        assert TerminalOk(g, path, words, n, i);
      }
    }
    forall w | 0 <= w < n + 1 && words[w] != [] ensures exists i: nat :: EndsAt(g', path, words, w, i) {
      if w < n {
        var i: nat :| EndsAt(g, path, words, w, i);
        assert i != walk;
        assert EndsAt(g', path, words, w, i);
      } else {
        assert EndsAt(g', path, words, n, walk);
      }
    }
  }

  // ----- the order of the states -----

  /** The first edge of a state leads to the state after it. */
  ghost predicate FirstNext(g: Graph)
  {
    forall i | 0 <= i < |g| && g[i] != [] && g[i][0].to != 0 :: g[i][0].to == i + 1
  }

  /** The same while the trie is built: only the last state can still be without edges. */
  ghost predicate Ordered(g: Graph)
  {
    FirstNext(g) && forall i | 0 <= i < |g| && g[i] == [] :: i == |g| - 1
  }

  /** A string is followed to its end in one go, so the last state is open only while the walk stands there. */
  ghost predicate OpenAt(g: Graph, walk: nat)
  {
    |g| > 0 && (g[|g| - 1] == [] ==> walk == |g| - 1)
  }

  lemma GrowOrdered(g: Graph, walk: nat, c: nat)
    requires walk < |g| && Ordered(g) && OpenAt(g, walk)
    ensures Ordered(Grow(g, walk, c)) && OpenAt(Grow(g, walk, c), |g|)
  {
    var g': Graph := Grow(g, walk, c);
    forall i | 0 <= i < |g'| && g'[i] != [] && g'[i][0].to != 0 ensures g'[i][0].to == i + 1 {
      if g[i] != [] {
        assert g'[i][0] == g[i][0];
      }
    }
  }

  lemma MarkOrdered(g: Graph, walk: nat, n: nat)
    requires walk < |g| && g[walk] == [] && Ordered(g)
    ensures Ordered(Mark(g, walk, n)) && Mark(g, walk, n)[|g| - 1] != []
  {
  }

  // ----- the finished trie -----

  /** All words are in. */
  ghost predicate Finished(g: Graph, path: Words, words: Words)
  {
    && Shape(g, path) && Terminals(g, path, words, |words|) && Covered(path, words, |words|)
    && FirstNext(g)
  }

  /** The state after the first `m` characters on the way to state `v`. */
  lemma {:induction false} OnTheWay(g: Graph, path: Words, v: nat, m: nat) returns (i: nat)
    requires Shape(g, path) && v < |g| && m <= |path[v]|
    ensures i < |g| && path[i] == path[v][..m]
    ensures m < |path[v]| ==> exists y :: 0 <= y < |g[i]| && g[i][y].to != 0 && g[i][y].c == path[v][m]
    decreases |path[v]| - m
  {
    if m == |path[v]| {
      i := v;
    } else {
      var next := OnTheWay(g, path, v, m + 1);
      assert path[next] != [] && next != 0;
      assert HasParent(g, next);
      var p, y :| 0 <= p < |g| && 0 <= y < |g[p]| && g[p][y].to == next;
      assert EdgeOk(g, path, p, y);
      assert path[next] == path[p] + [g[p][y].c];
      assert path[v][..m + 1][..m] == path[v][..m];
      i := p;
    }
  }

  /** Every state of a finished trie with more than the root has an edge. */
  lemma NoEmptyState(g: Graph, path: Words, words: Words, i: nat)
    requires Legal(words) && Finished(g, path, words) && i < |g| && 1 < |g|
    ensures g[i] != []
  {
    if i == 0 {
      var r := OnTheWay(g, path, 1, 0);
      assert path[1] != [] by { assert path[0] != path[1]; }
      assert r == 0 by { assert path[r] == path[0]; }
    } else {
      assert CoveredBy(path[i], words, |words|);
      var w :| 0 <= w < |words| && words[w] != [] && path[i] <= words[w];
      var v: nat :| EndsAt(g, path, words, w, v);
      var r := OnTheWay(g, path, v, |path[i]|);
      assert path[r] == path[i] && r == i;
    }
  }
}
