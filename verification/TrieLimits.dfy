/** When the trie of a set of strings fits minilex's arrays, and why its table then needs no far jump. */
module TrieLimits {
  import opened Bytes
  import opened Trie
  import opened LexTable

  /** The most edges of one state, and the most states. */
  const PARALLEL := 30
  const MAX_STATES := 1000

  /** All beginnings of the words, with the empty one. */
  ghost function Prefixes(words: Words): set<seq<byte>>
  {
    {[]} + set w, k | 0 <= w < |words| && 0 <= k <= |words[w]| :: words[w][..k]
  }

  /** The characters that follow `p` in some word. */
  ghost function NextChars(words: Words, p: seq<byte>): set<int>
  {
    set w | 0 <= w < |words| && |p| < |words[w]| && p <= words[w] :: words[w][|p|]
  }

  ghost predicate Fits(words: Words)
  {
    && |Prefixes(words)| <= 1000
    && forall p | p in Prefixes(words) :: |NextChars(words, p)| <= 30
  }

  ghost function Elements<T>(s: seq<T>): set<T>
  {
    set x | x in s
  }

  lemma {:induction false} Cardinality<T>(s: seq<T>)
    ensures |Elements(s)| <= |s|
    ensures (forall i, j | 0 <= i < j < |s| :: s[i] != s[j]) ==> |Elements(s)| == |s|
  {
    if s != [] {
      var k := |s| - 1;
      Cardinality(s[..k]);
      assert Elements(s) == Elements(s[..k]) + {s[k]};
    }
  }

  lemma {:induction false} SubsetSize<T>(a: set<T>, b: set<T>)
    requires a <= b
    ensures |a| <= |b| && (a != b ==> |a| < |b|)
  {
    if a != {} {
      var x :| x in a;
      SubsetSize(a - {x}, b - {x});
    }
  }

  function Chars(es: seq<Edge>): (cs: seq<int>)
    ensures |cs| == |es| && forall i | 0 <= i < |es| :: cs[i] == es[i].c
  {
    seq(|es|, i requires 0 <= i < |es| => es[i].c)
  }

  // ----- a full array means that the words do not fit -----

  lemma PathsArePrefixes(path: Words, words: Words, k: nat)
    requires k <= |words| && Covered(path, words, k) && |path| >= 1 && path[0] == []
    ensures Elements(path) <= Prefixes(words)
  {
    forall p | p in Elements(path) ensures p in Prefixes(words) {
      var i :| 0 <= i < |path| && path[i] == p;
      if i > 0 {
        assert CoveredBy(path[i], words, k);
        var w :| 0 <= w < k && words[w] != [] && path[i] <= words[w];
        assert words[w][..|p|] == p;
      }
    }
  }

  lemma TooManyStates(g: Graph, path: Words, words: Words, n: nat, walk: nat, m: nat)
    requires Shape(g, path) && n < |words| && Covered(path, words, n + 1) && |g| == MAX_STATES
    requires walk < |g| && m < |words[n]| && path[walk] == words[n][..m]
    requires forall y | 0 <= y < |g[walk]| :: g[walk][y].c != words[n][m]
    ensures !Fits(words)
  {
    GrowFresh(g, path, walk, words[n][m]);
    PathsArePrefixes(path, words, n + 1);
    assert words[n][..m + 1] == path[walk] + [words[n][m]];
    assert words[n][..m + 1] in Prefixes(words) && words[n][..m + 1] !in Elements(path);
    Cardinality(path);
    SubsetSize(Elements(path), Prefixes(words));
  }

  lemma TooManyEdges(g: Graph, path: Words, words: Words, n: nat, walk: nat, m: nat)
    requires Shape(g, path) && n < |words| && Covered(path, words, n + 1)
    requires walk < |g| && m < |words[n]| && path[walk] == words[n][..m] && |g[walk]| == PARALLEL
    requires forall y | 0 <= y < |g[walk]| :: g[walk][y].c != words[n][m] && g[walk][y].to != 0
    ensures !Fits(words)
  {
    var p, cs := path[walk], Chars(g[walk]);
    var next := NextChars(words, p);
    forall c | c in Elements(cs) ensures c in next {
      var y :| 0 <= y < |cs| && cs[y] == c;
      assert EdgeOk(g, path, walk, y);
      var t := g[walk][y].to;
      assert CoveredBy(path[t], words, n + 1);
      var w :| 0 <= w < n + 1 && words[w] != [] && path[t] <= words[w];
      assert path[t][|p|] == c;
      assert words[w][|p|] == c && p <= words[w];
    }
    assert words[n][m] in next && words[n][m] !in Elements(cs);
    Cardinality(cs);
    SubsetSize(Elements(cs), next);
    assert p in Prefixes(words);
  }

  // ----- a finished trie within the arrays means that they do -----

  lemma FinishedFits(g: Graph, path: Words, words: Words)
    requires Finished(g, path, words) && |g| <= MAX_STATES
    requires forall i | 0 <= i < |g| :: |g[i]| <= PARALLEL
    ensures Fits(words)
  {
    forall p | p in Prefixes(words) ensures p in Elements(path) && |NextChars(words, p)| <= PARALLEL {
      var i := StateOf(g, path, words, p);
      FanOut(g, path, words, i);
    }
    Cardinality(path);
    SubsetSize(Prefixes(words), Elements(path));
  }

  lemma StateOf(g: Graph, path: Words, words: Words, p: seq<byte>) returns (i: nat)
    requires Finished(g, path, words) && p in Prefixes(words)
    ensures i < |g| && path[i] == p
  {
    if p == [] {
      i := 0;
    } else {
      var w, k :| 0 <= w < |words| && 0 <= k <= |words[w]| && words[w][..k] == p;
      var v: nat :| EndsAt(g, path, words, w, v);
      i := OnTheWay(g, path, v, k);
    }
  }

  lemma FanOut(g: Graph, path: Words, words: Words, i: nat)
    requires Finished(g, path, words) && i < |g|
    ensures |NextChars(words, path[i])| <= |g[i]|
  {
    var p, cs := path[i], Chars(g[i]);
    forall c | c in NextChars(words, p) ensures c in Elements(cs) {
      var w :| 0 <= w < |words| && |p| < |words[w]| && p <= words[w] && words[w][|p|] == c;
      var v: nat :| EndsAt(g, path, words, w, v);
      var r := OnTheWay(g, path, v, |p|);
      assert path[r] == path[i] && r == i;
      var y :| 0 <= y < |g[i]| && g[i][y].to != 0 && g[i][y].c == c;
      assert cs[y] == c;
    }
    Cardinality(cs);
    SubsetSize(NextChars(words, p), Elements(cs));
  }

  // ----- the table is small -----

  function EdgeCount(g: Graph): nat
  {
    if g == [] then 0 else EdgeCount(g[..|g| - 1]) + |g[|g| - 1]|
  }

  lemma {:induction false} EdgeCountUpdate(g: Graph, i: nat, es: seq<Edge>)
    requires i < |g|
    ensures EdgeCount(g[i := es]) == EdgeCount(g) - |g[i]| + |es|
    decreases |g|
  {
    var k := |g| - 1;
    if i < k {
      assert g[i := es][..k] == g[..k][i := es];
      EdgeCountUpdate(g[..k], i, es);
    } else {
      assert g[i := es][..k] == g[..k];
    }
  }

  /** One edge into each state but the root, and one terminal for each word. */
  ghost predicate Slim(g: Graph, n: nat)
  {
    EdgeCount(g) <= |g| - 1 + n
  }

  lemma GrowSlim(g: Graph, walk: nat, c: nat, n: nat)
    requires walk < |g| && Slim(g, n)
    ensures Slim(Grow(g, walk, c), n)
  {
    var g1 := g[walk := g[walk] + [Edge(c, |g|)]];
    EdgeCountUpdate(g, walk, g[walk] + [Edge(c, |g|)]);
    assert Grow(g, walk, c)[..|g|] == g1;
  }

  lemma MarkSlim(g: Graph, walk: nat, n: nat)
    requires walk < |g| && g[walk] == [] && Slim(g, n)
    ensures Slim(Mark(g, walk, n), n + 1)
  {
    EdgeCountUpdate(g, walk, [Edge(n, 0)]);
  }

  lemma {:induction false} OffsetBound(g: Graph, i: nat, m: nat)
    requires InRange(g) && i < |g| && m <= |g[i]|
    ensures Offset(g, i, m) <= 4 * m
  {
    if m > 0 {
      OffsetBound(g, i, m - 1);
    }
  }

  lemma {:induction false} RealPosBound(g: Graph, i: nat)
    requires InRange(g) && i <= |g|
    ensures RealPos(g, i) <= 4 * EdgeCount(g[..i])
  {
    if i > 0 {
      RealPosBound(g, i - 1);
      OffsetBound(g, i - 1, |g[i - 1]|);
      assert g[..i][..i - 1] == g[..i - 1];
    }
  }

  /** An edge whose jump does not fit the table's 16 bits. */
  predicate FarJump(g: Graph, n: nat, m: nat)
    requires InRange(g) && n < |g| && m < |g[n]|
  {
    g[n][m].to != 0 && !Chained(g, n, m) && Jump(g, n, m) > 0xffff
  }

  ghost predicate HasFarJump(g: Graph)
    requires InRange(g)
  {
    exists n, m | 0 <= n < |g| && 0 <= m < |g[n]| :: FarJump(g, n, m)
  }

  /** A trie within the arrays never needs a jump of more than 64K. */
  lemma NoFarJump(g: Graph, n: nat)
    requires InRange(g) && Slim(g, n) && n <= 128 && |g| <= MAX_STATES
    ensures !HasFarJump(g)
  {
    forall i, m | 0 <= i < |g| && 0 <= m < |g[i]| ensures !FarJump(g, i, m) {
      var t := g[i][m].to;
      RealPosBound(g, |g|);
      assert g[..|g|] == g;
      RealPosGrows(g, t, |g|);
    }
  }
}
