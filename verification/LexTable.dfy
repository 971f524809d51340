/**
  * The byte table minilex writes for a trie, and its decoder: every edge of every state decodes to the
  * position of the state it leads to.
  */
module LexTable {
  import opened Bytes
  import opened Trie

  const FAIL := 8

  // ----- the layout: one pass for sizes, one for bytes -----

  /** bytepos: two units for each edge of the states before `i`. */
  function BytePos(g: Graph, i: nat): nat
    requires i <= |g|
  {
    if i == 0 then 0 else BytePos(g, i - 1) + 2 * |g[i - 1]|
  }

  /** The edge's target starts right after the edge, so that the edge needs no jump. */
  predicate Chained(g: Graph, i: nat, m: nat)
    requires i < |g| && m < |g[i]| && g[i][m].to < |g|
  {
    BytePos(g, g[i][m].to) == BytePos(g, i) + 2 * m + 2
  }

  predicate InRange(g: Graph)
  {
    forall i, m | 0 <= i < |g| && 0 <= m < |g[i]| :: g[i][m].to < |g|
  }

  function EdgeSize(g: Graph, i: nat, m: nat): (n: nat)
    requires InRange(g) && i < |g| && m < |g[i]|
    ensures 1 <= n <= 4
  {
    if g[i][m].to == 0 then 2
    else if Chained(g, i, m) then 1
    else if m == |g[i]| - 1 then 4
    else 3
  }

  function Offset(g: Graph, i: nat, m: nat): nat
    requires InRange(g) && i < |g| && m <= |g[i]|
  {
    if m == 0 then 0 else Offset(g, i, m - 1) + EdgeSize(g, i, m - 1)
  }

  function RealPos(g: Graph, i: nat): nat
    requires InRange(g) && i <= |g|
  {
    if i == 0 then 0 else RealPos(g, i - 1) + Offset(g, i - 1, |g[i - 1]|)
  }

  function Pos(g: Graph, i: nat, m: nat): nat
    requires InRange(g) && i < |g| && m <= |g[i]|
  {
    RealPos(g, i) + Offset(g, i, m)
  }

  lemma PositionsStart(g: Graph)
    requires InRange(g)
    ensures BytePos(g, 0) == RealPos(g, 0) == 0
  {
  }

  lemma PositionsAfter(g: Graph, i: nat)
    requires InRange(g) && i < |g|
    ensures BytePos(g, i + 1) == BytePos(g, i) + 2 * |g[i]| && RealPos(g, i + 1) == Pos(g, i, |g[i]|)
  {
  }

  lemma FirstPos(g: Graph, i: nat)
    requires InRange(g) && i < |g|
    ensures Pos(g, i, 0) == RealPos(g, i)
  {
  }

  lemma NextPos(g: Graph, i: nat, m: nat)
    requires InRange(g) && i < |g| && m < |g[i]|
    ensures Pos(g, i, m + 1) == Pos(g, i, m) + EdgeSize(g, i, m)
  {
  }

  function Jump(g: Graph, i: nat, m: nat): int
    requires InRange(g) && i < |g| && m < |g[i]|
  {
    RealPos(g, g[i][m].to) - Pos(g, i, m)
  }

  /** The bytes of one edge at `pos`: `EdgeSize` of them. */
  predicate EdgeAt(g: Graph, table: seq<byte>, i: nat, m: nat)
    requires InRange(g) && i < |g| && m < |g[i]|
  {
    var e, pos := g[i][m], Pos(g, i, m);
    && pos + EdgeSize(g, i, m) <= |table|
    && if e.to == 0 then table[pos] == e.c / 256 && table[pos + 1] == e.c % 256
       else if Chained(g, i, m) then table[pos] == e.c + 128
       else
         && table[pos] == e.c
         && table[pos + 1] as int + 256 * table[pos + 2] as int == Jump(g, i, m)
         && (m == |g[i]| - 1 ==> table[pos + 3] == FAIL)
  }

  predicate Encodes(g: Graph, table: seq<byte>)
    requires InRange(g)
  {
    && |table| == RealPos(g, |g|)
    && forall i, m | 0 <= i < |g| && 0 <= m < |g[i]| :: EdgeAt(g, table, i, m)
  }

  // ----- the graphs that the trie builder makes -----

  predicate EdgeSane(g: Graph, i: nat, m: nat)
    requires i < |g| && m < |g[i]|
  {
    if g[i][m].to == 0 then |g[i]| == 1 && g[i][m].c < 128
    else i < g[i][m].to < |g| && 9 <= g[i][m].c < 128
  }

  /** Edges lead forward, a terminal marker is alone in its state, and no state is empty. */
  predicate Sane(g: Graph)
  {
    && (forall i | 0 <= i < |g| && |g| > 1 :: g[i] != [])
    && forall i, m | 0 <= i < |g| && 0 <= m < |g[i]| :: EdgeSane(g, i, m)
  }

  lemma FinishedIsSane(g: Graph, path: Words, words: Words)
    requires Legal(words) && Finished(g, path, words)
    ensures Sane(g) && InRange(g)
  {
    forall i | 0 <= i < |g| && |g| > 1 ensures g[i] != [] {
      NoEmptyState(g, path, words, i);
    }
    forall i, m | 0 <= i < |g| && 0 <= m < |g[i]| ensures EdgeSane(g, i, m) && g[i][m].to < |g| {
      assert EdgeOk(g, path, i, m) && TerminalOk(g, path, words, |words|, i);
    }
  }

  // ----- positions -----

  lemma {:induction false} BytePosGrows(g: Graph, i: nat, j: nat)
    requires i <= j <= |g|
    ensures BytePos(g, i) <= BytePos(g, j)
    ensures i < j && g[i] != [] ==> BytePos(g, i) + 2 * |g[i]| <= BytePos(g, j)
    decreases j - i
  {
    if i < j {
      BytePosGrows(g, i + 1, j);
    }
  }

  /** An edge is chained exactly when it is the last of its state and leads to the next state. */
  lemma ChainedIsNext(g: Graph, i: nat, m: nat)
    requires Sane(g) && i < |g| && m < |g[i]| && g[i][m].to != 0
    ensures EdgeSane(g, i, m)
    ensures Chained(g, i, m) <==> m == |g[i]| - 1 && g[i][m].to == i + 1
  {
    assert EdgeSane(g, i, m);
    BytePosGrows(g, i + 1, g[i][m].to);
  }

  lemma {:induction false} RealPosGrows(g: Graph, i: nat, j: nat)
    requires InRange(g) && i < j <= |g|
    ensures RealPos(g, i) + Offset(g, i, |g[i]|) <= RealPos(g, j)
    decreases j - i
  {
    if i + 1 < j {
      RealPosGrows(g, i + 1, j);
    }
  }

  lemma {:induction false} OffsetGrows(g: Graph, i: nat, m: nat, k: nat)
    requires InRange(g) && i < |g| && m < k <= |g[i]|
    ensures Offset(g, i, m) + EdgeSize(g, i, m) <= Offset(g, i, k)
    decreases k - m
  {
    if m + 1 < k {
      OffsetGrows(g, i, m + 1, k);
    }
  }

  // ----- the decoder -----

  /** A position in the table, -1, or a read beyond the end of the table. */
  datatype Decoded = At(pos: nat) | Reject | Overrun

  function Decode(table: seq<byte>, pos: nat, c: byte): Decoded
    decreases |table| - pos
  {
    if pos >= |table| then Overrun
    else if table[pos] >= 128 then
      if table[pos] - 128 != c then Reject
      else if pos + 1 >= |table| then Overrun
      else if table[pos + 1] == FAIL then Reject
      else At(pos + 1)
    else if table[pos] < FAIL then At(pos)
    else if table[pos] == c then
      if pos + 2 >= |table| then Overrun else At(pos + table[pos + 1] as int + 256 * table[pos + 2] as int)
    else Decode(table, pos + 3, c)
  }

  /** In any table: an edge without a jump is taken exactly if its character matches and no fail marker, 8, follows. */
  lemma ChainedEdge(table: seq<byte>, pos: nat, c: byte)
    requires pos + 1 < |table| && table[pos] >= 128
    ensures Decode(table, pos, c)
         == if table[pos] as int == 128 + c as int && table[pos + 1] != 8 then At(pos + 1) else Reject
  {
  }

  /** Each state starts with a byte that is not the fail marker; it is below it exactly for a terminal. */
  lemma FirstByte(g: Graph, table: seq<byte>, i: nat)
    requires Sane(g) && InRange(g) && Encodes(g, table) && i < |g| && g[i] != []
    ensures RealPos(g, i) < |table| && table[RealPos(g, i)] != FAIL
    ensures table[RealPos(g, i)] < FAIL <==> g[i][0].to == 0
  {
    assert EdgeAt(g, table, i, 0) && EdgeSane(g, i, 0);
  }

  /** From edge `m` of state `i` on, the decoder finds edge `j`, the first with its character. */
  lemma {:induction false} DecodeEdge(g: Graph, table: seq<byte>, i: nat, m: nat, j: nat)
    requires Sane(g) && InRange(g) && Encodes(g, table) && i < |g| && m <= j < |g[i]|
    requires g[i][j].to != 0 && g[i][j].c < 128
    requires forall y | m <= y < j :: g[i][y].c != g[i][j].c
    ensures Decode(table, Pos(g, i, m), g[i][j].c) == At(RealPos(g, g[i][j].to))
    decreases j - m
  {
    assert EdgeAt(g, table, i, m) && EdgeSane(g, i, m) && EdgeSane(g, i, j);
    if g[i][m].to != 0 {
      ChainedIsNext(g, i, m);
    }
    if m < j {
      DecodeEdge(g, table, i, m + 1, j);
    } else if Chained(g, i, j) {
      FirstByte(g, table, i + 1);
    }
  }

  // ----- every word -----

  /** Feeds a word to the decoder: the terminal reached, and how many characters it took. */
  function Lookup(table: seq<byte>, word: seq<byte>, pos: nat, m: nat): Option<(nat, nat)>
    requires m <= |word|
    decreases |word| - m
  {
    if m == |word| then None
    else
      var d := Decode(table, pos, word[m]);
      if !d.At? || d.pos + 1 >= |table| then None
      else if table[d.pos] < FAIL then Some((256 * table[d.pos] as int + table[d.pos + 1] as int, m + 1))
      else Lookup(table, word, d.pos, m + 1)
  }

  lemma {:induction false} FirstWith(es: seq<Edge>, y: nat) returns (j: nat)
    requires y < |es|
    ensures j <= y && es[j].c == es[y].c
    ensures forall k | 0 <= k < j :: es[k].c != es[y].c
  {
    j := 0;
    while es[j].c != es[y].c
      invariant j <= y && forall k | 0 <= k < j :: es[k].c != es[y].c
      decreases y - j
    {
      j := j + 1;
    }
  }

  /** One character of word `w`: the decoder moves to the state that the word leads to. */
  lemma DecodeStep(g: Graph, path: Words, words: Words, table: seq<byte>, w: nat, m: nat, i: nat) returns (t: nat)
    requires Legal(words) && Finished(g, path, words) && Sane(g) && InRange(g) && Encodes(g, table)
    requires w < |words| && m < |words[w]| && i < |g| && path[i] == words[w][..m]
    ensures t < |g| && path[t] == words[w][..m + 1]
    ensures Decode(table, RealPos(g, i), words[w][m]) == At(RealPos(g, t))
  {
    var v: nat :| EndsAt(g, path, words, w, v);
    var r := OnTheWay(g, path, v, m);
    assert path[r] == path[i] && r == i;
    var y :| 0 <= y < |g[i]| && g[i][y].to != 0 && g[i][y].c == words[w][m];
    var j := FirstWith(g[i], y);
    assert EdgeSane(g, i, y) && EdgeSane(g, i, j) && EdgeOk(g, path, i, j);
    DecodeEdge(g, table, i, 0, j);
    t := g[i][j].to;
    assert words[w][..m + 1] == words[w][..m] + [words[w][m]];
  }

  /**
    * A string that begins with word `w`, from the state after the first `m` characters on, ends at the terminal of
    * `w` with the last character of `w`.
    */
  lemma {:induction false} LookupFrom(g: Graph, path: Words, words: Words, table: seq<byte>,
                                      s: seq<byte>, w: nat, m: nat, i: nat)
    requires Legal(words) && Finished(g, path, words) && Sane(g) && InRange(g) && Encodes(g, table)
    requires w < |words| && words[w] <= s && m < |words[w]| && i < |g| && path[i] == words[w][..m]
    ensures Lookup(table, s, RealPos(g, i), m) == Some((w, |words[w]|))
    decreases |words[w]| - m
  {
    var t := DecodeStep(g, path, words, table, w, m, i);
    StepsOn(g, path, words, table, w, m, t);
    if m + 1 < |words[w]| {
      LookupFrom(g, path, words, table, s, w, m + 1, t);
    }
  }

  /** The state after one more character of word `w` is its terminal, or one where the decoder goes on. */
  lemma StepsOn(g: Graph, path: Words, words: Words, table: seq<byte>, w: nat, m: nat, t: nat)
    requires Legal(words) && Finished(g, path, words) && Sane(g) && InRange(g) && Encodes(g, table)
    requires w < |words| && m < |words[w]| && t < |g| && path[t] == words[w][..m + 1]
    ensures RealPos(g, t) + 1 < |table|
    ensures m + 1 < |words[w]| ==> table[RealPos(g, t)] >= FAIL
    ensures m + 1 == |words[w]| ==> table[RealPos(g, t)] == 0 && table[RealPos(g, t) + 1] == w
  {
    assert t != 0;
    FirstByte(g, table, t);
    assert EdgeAt(g, table, t, 0) && EdgeSane(g, t, 0) && TerminalOk(g, path, words, |words|, t);
    if m + 1 == |words[w]| {
      var v: nat :| EndsAt(g, path, words, w, v);
      assert path[t] == path[v] && t == v;
    } else {
      if g[t][0].to == 0 {
        NotBegun(words, g[t][0].c, w, m + 1);
        assert false;
      }
      LaterState(g, table, t);
    }
  }

  /** Behind a state that is no terminal there is another. */
  lemma LaterState(g: Graph, table: seq<byte>, t: nat)
    requires Sane(g) && InRange(g) && Encodes(g, table) && t < |g| && g[t] != [] && g[t][0].to != 0
    ensures RealPos(g, t) + 1 < |table|
  {
    assert EdgeSane(g, t, 0);
    var u := g[t][0].to;
    OffsetGrows(g, t, 0, |g[t]|);
    RealPosGrows(g, t, u);
    FirstByte(g, table, u);
  }

  /** Decoding any word of the set from position 0 gives its index, with its last character and not before. */
  lemma MembersDecode(g: Graph, path: Words, words: Words, table: seq<byte>, w: nat)
    requires Legal(words) && Finished(g, path, words)
    requires InRange(g) && Encodes(g, table)
    requires w < |words| && words[w] != []
    ensures Lookup(table, words[w], 0, 0) == Some((w, |words[w]|))
  {
    FinishedIsSane(g, path, words);
    assert words[w][..0] == [];
    LookupFrom(g, path, words, table, words[w], w, 0, 0);
  }

  // ----- what the decoder does with other characters -----

  /**
    * A character that no edge of a state has: the decoder refuses it where the last edge is chained; where the
    * list ends with the fail marker, the decoder does not know it and reads on there.
    */
  lemma {:induction false} DecodeMiss(g: Graph, table: seq<byte>, i: nat, m: nat, c: byte)
    requires Sane(g) && InRange(g) && Encodes(g, table) && i < |g| && m < |g[i]| && g[i][0].to != 0
    requires forall y | m <= y < |g[i]| :: g[i][y].c != c
    ensures if g[i][|g[i]| - 1].to == i + 1 then Decode(table, Pos(g, i, m), c) == Reject
            else
              && 0 < RealPos(g, i + 1) <= |table| && table[RealPos(g, i + 1) - 1] == FAIL
              && Decode(table, Pos(g, i, m), c) == Decode(table, RealPos(g, i + 1) - 1, c)
    decreases |g[i]| - m
  {
    assert EdgeAt(g, table, i, m) && EdgeSane(g, i, m) && EdgeSane(g, i, 0);
    var last := |g[i]| - 1;
    ChainedIsNext(g, i, m);
    if m < last {
      DecodeMiss(g, table, i, m + 1, c);
    }
  }

  const TWO_WORDS: Words := [[9], [10]]
  const TWO_PATHS: Words := [[], [9], [10]]
  const TWO_GRAPH: Graph := [[Edge(9, 1), Edge(10, 2)], [Edge(0, 0)], [Edge(1, 0)]]
  const TWO_TABLE: seq<byte> := [9, 7, 0, 10, 6, 0, 8, 0, 0, 0, 1]

  lemma TwoShape(g: Graph, path: Words)
    requires g == TWO_GRAPH && path == TWO_PATHS
    ensures Shape(g, path)
  {
    assert g[0][0].to == 1 && g[0][1].to == 2;
    assert HasParent(g, 1) && HasParent(g, 2);
  }

  lemma TwoFinished(g: Graph, path: Words, words: Words)
    requires g == TWO_GRAPH && path == TWO_PATHS && words == TWO_WORDS
    ensures Legal(words) && Finished(g, path, words)
  {
    TwoShape(g, path);
    hide Shape;
    assert words[0][0] == 9 && words[1][0] == 10;
    assert path[1] == words[0] && path[2] == words[1];
    assert EndsAt(g, path, words, 0, 1) && EndsAt(g, path, words, 1, 2);
    assert CoveredBy(path[1], words, 2) && CoveredBy(path[2], words, 2);
  }

  lemma TwoLayout(g: Graph)
    requires |g| == 3 && g[0] == [Edge(9, 1), Edge(10, 2)] && g[1] == [Edge(0, 0)] && g[2] == [Edge(1, 0)]
    ensures InRange(g)
    ensures Pos(g, 0, 0) == 0 && Pos(g, 0, 1) == 3 && RealPos(g, 1) == 7 && RealPos(g, 2) == 9 && RealPos(g, 3) == 11
    ensures Pos(g, 1, 0) == 7 && Pos(g, 2, 0) == 9 && !Chained(g, 0, 0) && !Chained(g, 0, 1)
  {
    PositionsStart(g);
    PositionsAfter(g, 0);
    PositionsAfter(g, 1);
    PositionsAfter(g, 2);
    hide BytePos, RealPos;
    assert BytePos(g, 1) == 4 && BytePos(g, 2) == 6;
    NextPos(g, 0, 0);
    NextPos(g, 0, 1);
    NextPos(g, 1, 0);
    NextPos(g, 2, 0);
  }

  lemma TwoBytes(g: Graph, table: seq<byte>)
    requires |g| == 3 && g[0] == [Edge(9, 1), Edge(10, 2)] && g[1] == [Edge(0, 0)] && g[2] == [Edge(1, 0)]
    requires table == [9, 7, 0, 10, 6, 0, 8, 0, 0, 0, 1]
    ensures InRange(g) && Encodes(g, table)
  {
    TwoLayout(g);
    hide BytePos, RealPos, Offset, Chained;
    assert EdgeAt(g, table, 0, 0) && EdgeAt(g, table, 0, 1) && EdgeAt(g, table, 1, 0) && EdgeAt(g, table, 2, 0);
  }

  /** So a string outside the set may be taken for a member: with {09} and {0A}, {0B} decodes as the second. */
  lemma NonMemberAccepted()
    ensures Legal(TWO_WORDS) && Finished(TWO_GRAPH, TWO_PATHS, TWO_WORDS)
    ensures InRange(TWO_GRAPH) && Encodes(TWO_GRAPH, TWO_TABLE)
    ensures [11] !in TWO_WORDS && Lookup(TWO_TABLE, [11], 0, 0) == Some((1, 1))
  {
    TwoFinished(TWO_GRAPH, TWO_PATHS, TWO_WORDS);
    TwoBytes(TWO_GRAPH, TWO_TABLE);
    hide Finished, Encodes, InRange, Legal;
    assert TWO_WORDS[0][0] == 9 && TWO_WORDS[1][0] == 10;
    ReadOver(TWO_TABLE, [11]);
  }

  lemma ReadOver(table: seq<byte>, s: seq<byte>)
    requires table == TWO_TABLE && s == [11]
    ensures Lookup(table, s, 0, 0) == Some((1, 1))
  {
    assert Decode(table, 6, 11) == Decode(table, 9, 11) == At(9);
    assert Decode(table, 0, 11) == Decode(table, 3, 11) == Decode(table, 6, 11);
  }
}
