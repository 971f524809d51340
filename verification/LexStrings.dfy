/** What the decoder does with every string, in the set or not. */
module LexStrings {
  import opened Bytes
  import opened Trie
  import opened LexTable
  import opened TrieLimits

  /** How far `s` follows the words: the length of its longest beginning that is one of a word. */
  ghost function Followed(words: Words, s: seq<byte>): (k: nat)
    ensures k <= |s| && s[..k] in Prefixes(words)
    ensures k < |s| ==> s[..k + 1] !in Prefixes(words)
    decreases |s|
  {
    if s in Prefixes(words) then
      assert s[..|s|] == s;
      |s|
    else
      var most := s[..|s| - 1];
      var k := Followed(words, most);
      assert most[..k] == s[..k];
      assert k < |most| ==> most[..k + 1] == s[..k + 1];
      assert k == |most| ==> s[..k + 1] == s;
      k
  }

  predicate IsWord(words: Words, p: seq<byte>) { p != [] && p in words }

  /** The first `k` characters of `s` begin a word and are none, and with one more they begin no word. */
  ghost predicate LeavesAt(words: Words, s: seq<byte>, k: nat)
  {
    && k < |s| && s[..k] in Prefixes(words) && !IsWord(words, s[..k])
    && s[..k + 1] !in Prefixes(words)
  }

  // ----- the edges of a state are the ways to go on -----

  lemma InnerState(g: Graph, path: Words, words: Words, i: nat)
    requires Finished(g, path, words) && i < |g| && !IsWord(words, path[i])
    ensures forall y | 0 <= y < |g[i]| :: g[i][y].to != 0
  {
    assert TerminalOk(g, path, words, |words|, i);
  }

  lemma EdgesGoOn(g: Graph, path: Words, words: Words, i: nat)
    requires Finished(g, path, words) && i < |g| && !IsWord(words, path[i])
    ensures |g[i]| == |NextChars(words, path[i])|
    ensures forall y | 0 <= y < |g[i]| :: path[i] + [g[i][y].c] in Prefixes(words)
  {
    InnerState(g, path, words, i);
    var p, cs := path[i], Chars(g[i]);
    forall y | 0 <= y < |g[i]| ensures g[i][y].c in NextChars(words, p) && p + [g[i][y].c] in Prefixes(words) {
      assert EdgeOk(g, path, i, y);
      var t := g[i][y].to;
      assert CoveredBy(path[t], words, |words|);
      var w :| 0 <= w < |words| && words[w] != [] && path[t] <= words[w];
      assert words[w][..|path[t]|] == path[t];
      assert path[t][|p|] == g[i][y].c && words[w][|p|] == g[i][y].c;
      assert p <= words[w];
    }
    assert Elements(cs) <= NextChars(words, p);
    SubsetSize(Elements(cs), NextChars(words, p));
    Cardinality(cs);
    FanOut(g, path, words, i);
  }

  /** A state with several edges does not end with the one to the next state. */
  lemma LastEdge(g: Graph, path: Words, words: Words, i: nat)
    requires Finished(g, path, words) && i < |g| && !IsWord(words, path[i]) && g[i] != []
    ensures g[i][|g[i]| - 1].to == i + 1 <==> |g[i]| == 1
  {
    InnerState(g, path, words, i);
    var last := |g[i]| - 1;
    assert EdgeOk(g, path, i, 0) && EdgeOk(g, path, i, last);
    if last > 0 {
      assert path[i + 1] == path[i] + [g[i][0].c];
      SnocDiffers(path[i], g[i][0].c, path[i], g[i][last].c);
    }
  }

  // ----- the walk -----

  /** The decoder follows `s` as far as it is a beginning of word `w` that is not all of it. */
  lemma {:induction false} Reaches(g: Graph, path: Words, words: Words, table: seq<byte>,
                                   s: seq<byte>, w: nat, k: nat, m: nat, i: nat) returns (t: nat)
    requires Legal(words) && Finished(g, path, words) && Sane(g) && InRange(g) && Encodes(g, table)
    requires w < |words| && m <= k < |words[w]| && k <= |s| && s[..k] == words[w][..k]
    requires i < |g| && path[i] == s[..m]
    ensures t < |g| && path[t] == s[..k]
    ensures Lookup(table, s, RealPos(g, i), m) == Lookup(table, s, RealPos(g, t), k)
    decreases k - m
  {
    if m == k {
      t := i;
    } else {
      assert s[..k][m] == words[w][..k][m];
      assert s[..k][..m] == s[..m] && words[w][..k][..m] == words[w][..m];
      assert s[..k][..m + 1] == s[..m + 1] && words[w][..k][..m + 1] == words[w][..m + 1];
      var j := DecodeStep(g, path, words, table, w, m, i);
      StepsOn(g, path, words, table, w, m, j);
      t := Reaches(g, path, words, table, s, w, k, m + 1, j);
    }
  }

  lemma WordOf(words: Words, p: seq<byte>) returns (w: nat)
    requires p in Prefixes(words) && p != []
    ensures w < |words| && p <= words[w]
  {
    var v, k :| 0 <= v < |words| && 0 <= k <= |words[v]| && words[v][..k] == p;
    w := v;
  }

  /** The state where a string leaves the words, and the lookup from there. */
  lemma WalksTo(g: Graph, path: Words, words: Words, table: seq<byte>, s: seq<byte>, k: nat) returns (t: nat)
    requires Legal(words) && Finished(g, path, words) && Sane(g) && InRange(g) && Encodes(g, table)
    requires k <= |s| && s[..k] in Prefixes(words) && !IsWord(words, s[..k])
    ensures t < |g| && path[t] == s[..k]
    ensures Lookup(table, s, 0, 0) == Lookup(table, s, RealPos(g, t), k)
  {
    var p := s[..k];
    if p == [] {
      t := 0;
    } else {
      var w := WordOf(words, p);
      assert words[w] != p;
      assert words[w][..k] == p && s[..0] == [];
      t := Reaches(g, path, words, table, s, w, k, 0, 0);
    }
  }

  // ----- every string -----

  /**
    * The fate of any string, by the longest beginning `p` that it shares with the words:
    *  - `p` is a word: it decodes to that word, with its last character;
    *  - the string ends there, or only one character can follow `p`: it is refused.
    */
  ghost predicate Decided(words: Words, table: seq<byte>, s: seq<byte>)
  {
    var k := Followed(words, s);
    && (forall w | 0 <= w < |words| && words[w] != [] && words[w] == s[..k] :: Lookup(table, s, 0, 0) == Some((w, k)))
    && (!IsWord(words, s[..k]) && (k == |s| || |NextChars(words, s[..k])| <= 1) ==> Lookup(table, s, 0, 0) == None)
  }

  lemma EveryString(g: Graph, path: Words, words: Words, table: seq<byte>, s: seq<byte>)
    requires Legal(words) && Finished(g, path, words) && InRange(g) && Encodes(g, table)
    ensures Decided(words, table, s)
  {
    FinishedIsSane(g, path, words);
    var k := Followed(words, s);
    if IsWord(words, s[..k]) {
      forall w | 0 <= w < |words| && words[w] != [] && words[w] == s[..k]
        ensures Lookup(table, s, 0, 0) == Some((w, k))
      {
        assert words[w][..0] == [];
        LookupFrom(g, path, words, table, s, w, 0, 0);
      }
    } else {
      var t := WalksTo(g, path, words, table, s, k);
      if k < |s| && |NextChars(words, s[..k])| <= 1 {
        Missed(g, path, words, table, s, k, t);
      }
    }
  }

  /** Where the next character of a string is not among the edges of the state it has come to. */
  lemma Missed(g: Graph, path: Words, words: Words, table: seq<byte>, s: seq<byte>, k: nat, t: nat)
    requires Legal(words) && Finished(g, path, words) && Sane(g) && InRange(g) && Encodes(g, table)
    requires LeavesAt(words, s, k) && t < |g| && path[t] == s[..k]
    ensures if |NextChars(words, path[t])| <= 1 then Lookup(table, s, RealPos(g, t), k) == None
      else
        && 0 < RealPos(g, t + 1) <= |table| && table[RealPos(g, t + 1) - 1] == FAIL
        && Lookup(table, s, RealPos(g, t), k) == Lookup(table, s, RealPos(g, t + 1) - 1, k)
  {
    hide Decode, Lookup, Finished, NextChars, Legal, Prefixes;
    EdgesGoOn(g, path, words, t);
    if g[t] == [] {
      OnlyRoot(g, path, words, t);
      EmptyTable(g, table, s, k);
    } else {
      assert s[..k + 1] == s[..k] + [s[k]];
      NoEdge(g, path, words, t, s[k]);
      InnerState(g, path, words, t);
      LastEdge(g, path, words, t);
      DecodeMiss(g, table, t, 0, s[k]);
      SameLookup(table, s, k, RealPos(g, t), RealPos(g, t + 1) - 1);
    }
  }

  lemma EmptyTable(g: Graph, table: seq<byte>, s: seq<byte>, k: nat)
    requires g == [[]] && Encodes(g, table) && k < |s|
    ensures Lookup(table, s, RealPos(g, 0), k) == None
  {
    assert RealPos(g, 1) == 0;
  }

  /** The lookup depends on the position only through the decoding of the next character. */
  lemma SameLookup(table: seq<byte>, s: seq<byte>, k: nat, p: nat, q: int)
    requires k < |s|
    ensures Decode(table, p, s[k]) == Reject ==> Lookup(table, s, p, k) == None
    ensures 0 <= q && Decode(table, p, s[k]) == Decode(table, q, s[k]) ==>
      Lookup(table, s, p, k) == Lookup(table, s, q, k)
  {
    hide Decode;
  }

  lemma NoEdge(g: Graph, path: Words, words: Words, t: nat, c: byte)
    requires Finished(g, path, words) && t < |g| && !IsWord(words, path[t])
    requires path[t] + [c] !in Prefixes(words)
    ensures forall y | 0 <= y < |g[t]| :: g[t][y].c != c
  {
    hide Finished, Prefixes;
    EdgesGoOn(g, path, words, t);
  }

  lemma OnlyRoot(g: Graph, path: Words, words: Words, t: nat)
    requires Legal(words) && Finished(g, path, words) && t < |g| && g[t] == []
    ensures g == [[]]
  {
    if |g| > 1 {
      NoEmptyState(g, path, words, t);
      assert false;
    }
  }

  /**
    * A string that leaves the words where several characters can follow: the decoder reads on at the fail marker of
    * that state, with the same character.
    */
  lemma ReadsOn(g: Graph, path: Words, words: Words, table: seq<byte>, s: seq<byte>, k: nat) returns (t: nat)
    requires Legal(words) && Finished(g, path, words) && InRange(g) && Encodes(g, table)
    requires LeavesAt(words, s, k) && |NextChars(words, s[..k])| > 1
    ensures t < |g| && path[t] == s[..k]
    ensures 0 < RealPos(g, t + 1) <= |table| && table[RealPos(g, t + 1) - 1] == FAIL
    ensures Lookup(table, s, 0, 0) == Lookup(table, s, RealPos(g, t + 1) - 1, k)
  {
    FinishedIsSane(g, path, words);
    t := WalksTo(g, path, words, table, s, k);
    Missed(g, path, words, table, s, k, t);
  }

  // ----- reading on behind the fail marker -----

  /** A state that is no terminal: its first edge leads to the next state, and it is the last only if it is alone. */
  predicate Inner(g: Graph, i: nat)
    requires i < |g| && g[i] != []
  {
    && g[i][0].to == i + 1 < |g| && (forall m | 0 <= m < |g[i]| :: g[i][m].to != 0)
    && (g[i][|g[i]| - 1].to == i + 1 <==> |g[i]| == 1)
  }

  /** A state ends a word and is marked with its index, or leads on. */
  lemma Kinds(g: Graph, path: Words, words: Words, i: nat)
    requires Legal(words) && Finished(g, path, words) && i < |g| && g[i] != []
    ensures if IsWord(words, path[i]) then
        |g[i]| == 1 && g[i][0].to == 0 && g[i][0].c < |words| && words[g[i][0].c] == path[i]
      else Inner(g, i)
  {
    assert TerminalOk(g, path, words, |words|, i);
    if IsWord(words, path[i]) {
      WordsEnd(g, path, words, i);
    } else {
      LastEdge(g, path, words, i);
      assert EdgeOk(g, path, i, 0);
    }
  }

  lemma WordsEnd(g: Graph, path: Words, words: Words, i: nat)
    requires Finished(g, path, words) && i < |g| && IsWord(words, path[i])
    ensures |g[i]| == 1 && g[i][0].to == 0
  {
    var w :| 0 <= w < |words| && words[w] == path[i];
    var v: nat :| EndsAt(g, path, words, w, v);
    assert path[v] == path[i] && v == i;
  }

  /** The bytes of a state: two for a terminal, one for a single edge, three for each of several and the fail marker. */
  lemma StateSize(g: Graph, i: nat)
    requires Sane(g) && InRange(g) && i < |g| && g[i] != []
    requires g[i][0].to != 0 ==> Inner(g, i)
    ensures var n := |g[i]|;
      RealPos(g, i + 1) == RealPos(g, i) + if g[i][0].to == 0 then 2 else if n == 1 then 1 else 3 * n + 1
    ensures |g[i]| > 1 ==> !Chained(g, i, 0) && !Chained(g, i, 1)
  {
    PositionsAfter(g, i);
    assert EdgeSane(g, i, 0);
    if g[i][0].to == 0 {
      assert Offset(g, i, 1) == 2;
    } else {
      forall m | 0 <= m < |g[i]| { ChainedIsNext(g, i, m); }
      if |g[i]| == 1 {
        assert Offset(g, i, 1) == 1;
      } else {
        OffsetThree(g, i, |g[i]|);
      }
    }
  }

  lemma {:induction false} OffsetThree(g: Graph, i: nat, m: nat)
    requires InRange(g) && i < |g| && m <= |g[i]|
    requires forall y | 0 <= y < |g[i]| :: g[i][y].to != 0 && !Chained(g, i, y)
    ensures Offset(g, i, m) == if m < |g[i]| || m == 0 then 3 * m else 3 * m + 1
  {
    if m > 0 {
      OffsetThree(g, i, m - 1);
    }
  }

  /** The last byte of the first edge of several is 0, as the jump over a state is short. */
  lemma InsideSeveral(g: Graph, table: seq<byte>, j: nat)
    requires Sane(g) && InRange(g) && Encodes(g, table) && j < |g| && 1 < |g[j]| <= PARALLEL && Inner(g, j)
    ensures var pos := RealPos(g, j);
      && pos + 3 < |table| && table[pos + 2] == 0 && table[pos + 3] == g[j][1].c
      && (|g[j]| == 2 ==> table[pos + 1] == 7)
  {
    StateSize(g, j);
    assert EdgeAt(g, table, j, 0) && EdgeAt(g, table, j, 1);
    assert Offset(g, j, 1) == 3;
  }

  lemma MarkerSkipped(table: seq<byte>, q: nat, c: byte)
    requires q < |table| && table[q] == FAIL && c != FAIL
    ensures Decode(table, q, c) == Decode(table, q + 3, c)
    ensures q + 3 < |table| && table[q + 3] < FAIL ==> Decode(table, q, c) == At(q + 3)
  {
  }

  lemma LookupAt(table: seq<byte>, s: seq<byte>, k: nat, q: nat, pos: nat)
    requires k < |s| && pos + 1 < |table| && table[pos] < FAIL && Decode(table, q, s[k]) == At(pos)
    ensures Lookup(table, s, q, k) == Some((256 * table[pos] as int + table[pos + 1] as int, k + 1))
  {
    hide Decode;
  }

  /** The second edge of a state leads past the states behind the first. */
  lemma LaterBranch(g: Graph, path: Words, words: Words, t: nat)
    requires Shape(g, path) && t < |g| && |g[t]| > 1 && Inner(g, t) && g[t + 1] != []
    ensures t + 2 < |g|
    ensures g[t + 1][0].to == t + 2 ==> t + 3 < |g|
  {
    var u := g[t][1].to;
    assert EdgeOk(g, path, t, 0) && EdgeOk(g, path, t, 1) && EdgeOk(g, path, t + 1, 0);
    assert u != t + 1 by {
      SnocDiffers(path[t], g[t][0].c, path[t], g[t][1].c);
    }
    assert |path[u]| == |path[t]| + 1;
  }

  /** A lookup of `s[k..]` that stands at the fail marker in front of state `j`. */
  predicate AtMarker(g: Graph, table: seq<byte>, s: seq<byte>, k: nat, j: nat)
    requires InRange(g)
  {
    && Sane(g) && Encodes(g, table) && k < |s| && s[k] != FAIL
    && j < |g| && g[j] != [] && 0 < RealPos(g, j) <= |table| && table[RealPos(g, j) - 1] == FAIL
  }

  /** The state is a terminal: the lookup goes on behind it. */
  lemma BehindTerminal(g: Graph, table: seq<byte>, s: seq<byte>, k: nat, j: nat)
    requires InRange(g) && AtMarker(g, table, s, k, j) && g[j][0].to == 0
    ensures Lookup(table, s, RealPos(g, j) - 1, k) == Lookup(table, s, RealPos(g, j + 1), k)
  {
    hide Decode, Lookup;
    StateSize(g, j);
    MarkerSkipped(table, RealPos(g, j) - 1, s[k]);
    SameLookup(table, s, k, RealPos(g, j) - 1, RealPos(g, j) + 2);
  }

  /** The state has several edges: any character is accepted. */
  lemma BeforeBranch(g: Graph, table: seq<byte>, s: seq<byte>, k: nat, j: nat)
    requires InRange(g) && AtMarker(g, table, s, k, j) && 1 < |g[j]| <= PARALLEL && Inner(g, j)
    ensures Lookup(table, s, RealPos(g, j) - 1, k) == Some((g[j][1].c, k + 1))
  {
    hide Decode, Lookup;
    InsideSeveral(g, table, j);
    var q := RealPos(g, j) - 1;
    MarkerSkipped(table, q, s[k]);
    LookupAt(table, s, k, q, q + 3);
  }

  /** The state has one edge: the marker is skipped into the next state. */
  lemma OneAhead(g: Graph, table: seq<byte>, s: seq<byte>, k: nat, j: nat)
    requires InRange(g) && AtMarker(g, table, s, k, j) && |g[j]| == 1 && Inner(g, j)
    requires j + 2 < |g| && g[j + 1] != [] && g[j + 2] != [] && (g[j + 1][0].to != 0 ==> Inner(g, j + 1))
    ensures var look := Lookup(table, s, RealPos(g, j) - 1, k);
      && (g[j + 1][0].to == 0 && g[j + 1][0].c < FAIL ==>
            RealPos(g, j + 2) < |table| && look == Some((256 * g[j + 1][0].c + table[RealPos(g, j + 2)] as int, k + 1)))
      && (g[j + 1][0].to != 0 && |g[j + 1]| == 1 ==> look == Lookup(table, s, RealPos(g, j + 2), k))
      && (g[j + 1][0].to != 0 && |g[j + 1]| == 2 ==> look == Some((1792, k + 1)))
  {
    hide Decode, Lookup, RealPos, BytePos, Sane;
    var q := RealPos(g, j) - 1;
    StateSize(g, j);
    StateSize(g, j + 1);
    MarkerSkipped(table, q, s[k]);
    FirstByte(g, table, j + 2);
    assert EdgeAt(g, table, j + 1, 0);
    if g[j + 1][0].to == 0 {
      if g[j + 1][0].c < FAIL {
        LookupAt(table, s, k, q, q + 3);
      }
    } else if |g[j + 1]| == 1 {
      SameLookup(table, s, k, q, q + 3);
    } else if |g[j + 1]| == 2 {
      InsideSeveral(g, table, j + 1);
      LookupAt(table, s, k, q, q + 3);
    }
  }

  /**
    * What becomes of a string that leaves the words where several characters can follow, by the states `t + 1` and
    * `t + 2` that the first of these ways leads through, unless its next character is that of the fail marker:
    *  - the first way ends there: the lookup goes on in state `t + 2`;
    *  - several characters can follow there too: the string is accepted, whatever it goes on with;
    *  - one character can follow, and then again one: the lookup goes on in state `t + 3`;
    *  - one character can follow, and then two, or the end of one of the first eight words: it is accepted.
    */
  ghost predicate Inside(g: Graph, path: Words, words: Words, table: seq<byte>, s: seq<byte>, k: nat, t: nat)
    requires t + 2 < |g| && |path| == |g| && k <= |s| && InRange(g)
  {
    var look, one, two := Lookup(table, s, 0, 0), path[t + 1], path[t + 2];
    if IsWord(words, one) then look == Lookup(table, s, RealPos(g, t + 2), k)
    else if |NextChars(words, one)| > 1 then look.Some? && look.value.1 == k + 1
    else if IsWord(words, two) then
      forall w | 0 <= w < FAIL && w < |words| && words[w] == two :: look.Some? && look.value.1 == k + 1
    else if |NextChars(words, two)| == 1 then t + 3 < |g| && look == Lookup(table, s, RealPos(g, t + 3), k)
    else |NextChars(words, two)| == 2 ==> look == Some((1792, k + 1))
  }

  lemma ReadsInside(g: Graph, path: Words, words: Words, table: seq<byte>, s: seq<byte>, k: nat) returns (t: nat)
    requires Legal(words) && Finished(g, path, words) && InRange(g) && Encodes(g, table)
    requires forall i | 0 <= i < |g| :: |g[i]| <= PARALLEL
    requires LeavesAt(words, s, k) && s[k] != FAIL && |NextChars(words, s[..k])| > 1
    ensures t + 2 < |g| && path[t] == s[..k]
    ensures Inside(g, path, words, table, s, k, t)
  {
    hide Legal, Decode, Lookup, NextChars, Encodes, Covered, Terminals, FirstNext, Prefixes;
    FinishedIsSane(g, path, words);
    t := ReadsOn(g, path, words, table, s, k);
    EdgesGoOn(g, path, words, t);
    Kinds(g, path, words, t);
    NotEmpty(g, t + 1);
    LaterBranch(g, path, words, t);
    NotEmpty(g, t + 2);
    Kinds(g, path, words, t + 1);
    Kinds(g, path, words, t + 2);
    if IsWord(words, path[t + 1]) {
      BehindTerminal(g, table, s, k, t + 1);
    } else {
      EdgesGoOn(g, path, words, t + 1);
      if |g[t + 1]| > 1 {
        BeforeBranch(g, table, s, k, t + 1);
      } else {
        NotEmpty(g, t + 3);
        OneAhead(g, table, s, k, t + 1);
        if IsWord(words, path[t + 2]) {
          forall w | 0 <= w < |words| && words[w] == path[t + 2] {
            SameWord(words, w, g[t + 2][0].c);
          }
        } else {
          EdgesGoOn(g, path, words, t + 2);
        }
      }
    }
  }

  lemma SameWord(words: Words, v: nat, w: nat)
    requires Legal(words) && v < |words| && w < |words| && words[v] == words[w] != []
    ensures v == w
  {
    assert words[v] <= words[w];
  }

  lemma NotEmpty(g: Graph, i: nat)
    requires Sane(g) && 0 < i < |g|
    ensures g[i] != []
  {
  }

  // ----- a lookup that goes on in another state -----

  /** The same result, for a string of which `k` characters are taken and one of which `m` are. */
  predicate AsIf(a: Option<(nat, nat)>, k: nat, b: Option<(nat, nat)>, m: nat)
  {
    a.Some? == b.Some? && (a.Some? ==> a.value.0 == b.value.0 && a.value.1 + m == b.value.1 + k)
  }

  lemma {:induction false} SameRest(table: seq<byte>, a: seq<byte>, k: nat, b: seq<byte>, m: nat, pos: nat)
    requires k <= |a| && m <= |b| && a[k..] == b[m..]
    ensures AsIf(Lookup(table, a, pos, k), k, Lookup(table, b, pos, m), m)
    decreases |a| - k
  {
    hide Decode;
    assert |a| - k == |b| - m;
    if k < |a| {
      assert a[k] == a[k..][0] == b[m];
      assert a[k + 1..] == a[k..][1..] && b[m + 1..] == b[m..][1..];
      var d := Decode(table, pos, a[k]);
      if d.At? {
        SameRest(table, a, k + 1, b, m + 1, d.pos);
      }
    }
  }

  /** So a string whose lookup goes on in state `u` is decoded as the string that leads to `u` and goes on like it. */
  lemma StandsIn(g: Graph, path: Words, words: Words, table: seq<byte>, s: seq<byte>, k: nat, u: nat)
    requires Legal(words) && Finished(g, path, words) && InRange(g) && Encodes(g, table)
    requires k <= |s| && u < |g| && !IsWord(words, path[u])
    ensures AsIf(Lookup(table, s, RealPos(g, u), k), k, Lookup(table, path[u] + s[k..], 0, 0), |path[u]|)
  {
    FinishedIsSane(g, path, words);
    var z, m := path[u] + s[k..], |path[u]|;
    assert z[m..] == s[k..] && z[..m] == path[u] && z[..0] == [];
    SameRest(table, s, k, z, m, RealPos(g, u));
    if m > 0 {
      assert CoveredBy(path[u], words, |words|);
      var w :| 0 <= w < |words| && words[w] != [] && path[u] <= words[w];
      assert words[w][..m] == path[u] && words[w] != path[u];
      hide Lookup, Legal;
      var t := Reaches(g, path, words, table, z, w, m, 0, 0);
      assert t == u;
    } else {
      assert u == 0;
    }
  }

  /** In a state that ends a word, any character more makes it that word. */
  lemma TakenAs(g: Graph, path: Words, words: Words, table: seq<byte>, s: seq<byte>, k: nat, u: nat, w: nat)
    requires Legal(words) && Finished(g, path, words) && InRange(g) && Encodes(g, table)
    requires k < |s| && u < |g| && w < |words| && words[w] == path[u] != []
    ensures Lookup(table, s, RealPos(g, u), k) == Some((w, k + 1))
  {
    WordsEnd(g, path, words, u);
    Kinds(g, path, words, u);
    SameWord(words, w, g[u][0].c);
    assert EdgeAt(g, table, u, 0);
  }
}
