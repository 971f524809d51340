/**
  * minilex as a program: it builds the trie in its state array, sizes the table in one pass, emits it
  * in a second, and then decodes every string of the set with the result.
  */
module Minilex {
  import opened Bytes
  import opened Trie
  import opened LexTable
  import opened TrieLimits
  import opened LexStrings

  /** struct state: c[] and state[] up to count, and the two positions. */
  datatype Node = Node(edges: seq<Edge>, bytepos: nat, realPos: nat)

  class Lexer {
    const state: array<Node>
    var next: nat

    constructor ()
      ensures fresh(state) && Valid() && next == 1 && Graph() == [[]]
    {
      next := 1;
      state := new Node[MAX_STATES](_ => Node([], 0, 0));
    }

    ghost predicate Valid()
      reads this, state
    {
      && state.Length == MAX_STATES && 1 <= next <= MAX_STATES
      && (forall i | next <= i < MAX_STATES :: state[i].edges == [])
      && (forall i | 0 <= i < next :: |state[i].edges| <= PARALLEL)
    }

    ghost function Graph(): (g: Graph)
      reads this, state
      requires Valid()
      ensures |g| == next && forall i | 0 <= i < next :: g[i] == state[i].edges
    {
      seq(next, i requires 0 <= i < next && Valid() reads this, state => state[i].edges)
    }

    /** The states hold the edges of `g`. */
    ghost predicate Is(g: Graph)
      reads this, state
    {
      && state.Length == MAX_STATES && next == |g| <= MAX_STATES
      && forall i | 0 <= i < next :: state[i].edges == g[i]
    }

    ghost predicate BytesLaid(g: Graph, n: nat)
      reads this, state
      requires n <= |g| <= state.Length
    {
      forall i | 0 <= i < n :: state[i].bytepos == BytePos(g, i)
    }

    ghost predicate RealLaid(g: Graph, n: nat)
      reads this, state
      requires n <= |g| <= state.Length && InRange(g)
    {
      forall i | 0 <= i < n :: state[i].realPos == RealPos(g, i)
    }

    /** The search for an edge of `walk` with character `c`; the number of edges if there is none. */
    method FindEdge(walk: nat, c: byte) returns (y: nat)
      requires Valid() && walk < next
      ensures y <= |state[walk].edges|
      ensures y < |state[walk].edges| ==> state[walk].edges[y].c == c
      ensures y == |state[walk].edges| ==> forall k | 0 <= k < y :: state[walk].edges[k].c != c
    {
      y := 0;
      while y < |state[walk].edges|
        invariant y <= |state[walk].edges| && forall k | 0 <= k < y :: state[walk].edges[k].c != c
      {
        if state[walk].edges[y].c == c {
          return;
        }
        y := y + 1;
      }
    }

    /** A new state behind a new edge; false where the source's arrays are full. */
    method AddState(walk: nat, c: byte) returns (ok: bool)
      requires Valid() && walk < next
      modifies this, state
      ensures Valid()
      ensures ok ==> Graph() == Grow(old(Graph()), walk, c) && next == old(next) + 1
      ensures !ok ==> Graph() == old(Graph()) && (|Graph()[walk]| == PARALLEL || |Graph()| == MAX_STATES)
    {
      if |state[walk].edges| == PARALLEL || next == MAX_STATES {
        return false;
      }
      state[walk] := state[walk].(edges := state[walk].edges + [Edge(c, next)]);
      next := next + 1;
      return true;
    }

    /** The states so far are the trie of the first `n` words, and of some of the first `k` in part. */
    ghost predicate Holds(path: Words, words: Words, n: nat, k: nat)
      reads this, state
      requires Valid() && n <= |words| && k <= |words|
    {
      && Shape(Graph(), path) && Terminals(Graph(), path, words, n) && Covered(path, words, k)
      && Slim(Graph(), n) && Ordered(Graph())
    }

    /** One character of word `n`: along an edge that is there, or a new one. */
    method Follow(words: Words, n: nat, m: nat, walk: nat, ghost path: Words)
      returns (ok: bool, walk': nat, ghost path': Words)
      requires Valid() && Legal(words) && n < |words| && m < |words[n]| && Holds(path, words, n, n + 1)
      requires walk < next && path[walk] == words[n][..m] && OpenAt(Graph(), walk)
      modifies this, state
      ensures Valid()
      ensures ok ==> Holds(path', words, n, n + 1) && walk' < next && path'[walk'] == words[n][..m + 1]
      ensures ok ==> OpenAt(Graph(), walk')
      ensures !ok ==> !Fits(words)
    {
      hide Terminals, Covered, Slim, Fits, FirstNext;
      ghost var g := Graph();
      var c := words[n][m];
      assert words[n][..m + 1] == words[n][..m] + [c];
      NotTerminal(g, path, words, n, walk, m);
      var y := FindEdge(walk, c);
      if y < |state[walk].edges| {
        assert EdgeOk(g, path, walk, y);
        return true, state[walk].edges[y].to, path;
      }
      GrowShape(g, path, walk, c);
      GrowTerminals(g, path, words, n, walk, c);
      GrowCovered(path, words, n, path[walk] + [c]);
      GrowSlim(g, walk, c, n);
      GrowOrdered(g, walk, c);
      ok := AddState(walk, c);
      path' := path + [path[walk] + [c]];
      walk' := next - 1;
      if !ok {
        if |g| == MAX_STATES {
          TooManyStates(g, path, words, n, walk, m);
        } else {
          TooManyEdges(g, path, words, n, walk, m);
        }
      }
    }

    /** Follows word `n` from the root, adding the states that are missing. */
    method InsertWord(words: Words, n: nat, ghost path0: Words) returns (ok: bool, walk: nat, ghost path: Words)
      requires Valid() && Legal(words) && n < |words| && words[n] != []
      requires Holds(path0, words, n, n + 1) && OpenAt(Graph(), 0)
      modifies this, state
      ensures Valid()
      ensures ok ==> Holds(path, words, n, n + 1) && walk < next && path[walk] == words[n]
      ensures !ok ==> !Fits(words)
    {
      hide Terminals, Covered, Slim, Fits, Legal, Ordered, OpenAt;
      walk, path := 0, path0;
      var m := 0;
      while m < |words[n]|
        invariant Valid() && 0 <= m <= |words[n]|
        invariant Holds(path, words, n, n + 1) && walk < next && path[walk] == words[n][..m]
        invariant OpenAt(Graph(), walk)
      {
        ok, walk, path := Follow(words, n, m, walk, path);
        if !ok {
          return;
        }
        m := m + 1;
      }
      assert words[n][..m] == words[n];
      ok := true;
    }

    /** Marks the end of word `n`. */
    method EndWord(words: Words, n: nat, walk: nat, ghost path: Words)
      requires Valid() && Legal(words) && n < |words| && words[n] != [] && Holds(path, words, n, n + 1)
      requires walk < next && path[walk] == words[n]
      modifies state
      ensures Valid() && Holds(path, words, n + 1, n + 1) && Graph()[next - 1] != []
    {
      hide Terminals, Covered, Slim, Legal, Shape, Ordered;
      ghost var g := Graph();
      EndIsFresh(g, path, words, n, walk);
      MarkOrdered(g, walk, n);
      MarkShape(g, path, walk, n);
      MarkTerminals(g, path, words, n, walk);
      MarkSlim(g, walk, n);
      state[walk] := state[walk].(edges := [Edge(n, 0)]);
      assert Graph() == Mark(g, walk, n);
    }

    /** One turn of the first loop: word `n`, which is skipped if it is empty. */
    method AddWord(words: Words, n: nat, ghost path0: Words) returns (ok: bool, ghost path: Words)
      requires Valid() && Legal(words) && n < |words| && Holds(path0, words, n, n) && OpenAt(Graph(), 0)
      modifies this, state
      ensures Valid()
      ensures ok ==> Holds(path, words, n + 1, n + 1) && OpenAt(Graph(), 0)
      ensures !ok ==> !Fits(words)
    {
      hide Terminals, Covered, Slim, Fits, Legal, Shape, FirstNext;
      ok, path := true, path0;
      if words[n] == [] {
        SkipEmpty(Graph(), path, words, n);
      } else {
        CoverMore(path, words, n);
        var walk;
        ok, walk, path := InsertWord(words, n, path);
        if ok {
          EndWord(words, n, walk, path);
        }
      }
    }

    /** The first loop of minilex; it outgrows the arrays exactly when the words do not fit them. */
    method Build(words: Words) returns (ok: bool, ghost path: Words)
      requires Valid() && Graph() == [[]] && Legal(words)
      modifies this, state
      ensures Valid()
      ensures ok ==> Finished(Graph(), path, words) && Slim(Graph(), |words|)
      ensures ok <==> Fits(words)
    {
      hide Terminals, Covered, Slim, Fits, Legal, Shape, FirstNext, OpenAt, Holds, Finished;
      path := [[]];
      var n := 0;
      StartsEmpty(words);
      while n < |words|
        invariant Valid() && 0 <= n <= |words| && Holds(path, words, n, n) && OpenAt(Graph(), 0)
      {
        ok, path := AddWord(words, n, path);
        if !ok {
          return;
        }
        n := n + 1;
      }
      AllIn(path, words);
      ok := true;
    }

    lemma StartsEmpty(words: Words)
      requires Valid() && Graph() == [[]] && Legal(words)
      ensures Holds([[]], words, 0, 0) && OpenAt(Graph(), 0)
    {
    }

    lemma AllIn(path: Words, words: Words)
      requires Valid() && Legal(words) && Holds(path, words, |words|, |words|) && OpenAt(Graph(), 0)
      ensures Finished(Graph(), path, words) && Slim(Graph(), |words|) && Fits(words)
    {
      hide Terminals, Covered, Slim, Fits, Legal, Shape, FirstNext, OpenAt;
      FinishedFits(Graph(), path, words);
    }

    /** The positions of all states, computed before anything is emitted. */
    method Layout(ghost g: Graph)
      requires Is(g) && InRange(g)
      modifies state
      ensures Is(g) && BytesLaid(g, next) && RealLaid(g, next)
    {
      hide BytePos, RealPos, InRange;
      LayoutBytes(g);
      PositionsStart(g);
      var pos, n := 0, 0;
      while n < next
        invariant 0 <= n <= next && Is(g) && BytesLaid(g, next) && RealLaid(g, n)
        invariant pos == RealPos(g, n)
      {
        pos := PlaceReal(n, pos, g);
        n := n + 1;
      }
    }

    /** The first of its two loops. */
    method LayoutBytes(ghost g: Graph)
      requires Is(g) && InRange(g)
      modifies state
      ensures Is(g) && BytesLaid(g, next)
    {
      hide BytePos, RealPos, InRange;
      PositionsStart(g);
      var walk, n := 0, 0;
      while n < next
        invariant 0 <= n <= next && Is(g) && BytesLaid(g, n)
        invariant walk == BytePos(g, n)
      {
        walk := PlaceBytes(n, walk, g);
        n := n + 1;
      }
    }

    method PlaceBytes(n: nat, walk: nat, ghost g: Graph) returns (walk': nat)
      requires Is(g) && InRange(g) && n < next && BytesLaid(g, n) && walk == BytePos(g, n)
      modifies state
      ensures Is(g) && BytesLaid(g, n + 1) && walk' == BytePos(g, n + 1)
    {
      hide BytePos, RealPos, Offset, InRange;
      PositionsAfter(g, n);
      state[n] := state[n].(bytepos := walk);
      walk' := walk + 2 * |state[n].edges|;
    }

    method PlaceReal(n: nat, pos: nat, ghost g: Graph) returns (pos': nat)
      requires Is(g) && InRange(g) && n < next && BytesLaid(g, next) && RealLaid(g, n) && pos == RealPos(g, n)
      modifies state
      ensures Is(g) && BytesLaid(g, next) && RealLaid(g, n + 1) && pos' == RealPos(g, n + 1)
    {
      hide BytePos, RealPos, InRange;
      state[n] := state[n].(realPos := pos);
      pos' := StateEnd(n, pos, state[n].bytepos, g);
    }

    /** The position after state `n`, which starts at `start`; `walk` runs over its edges. */
    method StateEnd(n: nat, start: nat, bytepos: nat, ghost g: Graph) returns (pos: nat)
      requires Is(g) && InRange(g) && BytesLaid(g, next) && n < next
      requires start == RealPos(g, n) && bytepos == BytePos(g, n)
      ensures pos == RealPos(g, n + 1)
    {
      hide BytePos, RealPos, Offset, Pos, EdgeSize, BytesLaid, InRange;
      PositionsAfter(g, n);
      FirstPos(g, n);
      pos := start;
      var walk, m := bytepos, 0;
      while m < |state[n].edges|
        invariant 0 <= m <= |g[n]| && pos == Pos(g, n, m) && walk == BytePos(g, n) + 2 * m
      {
        NextPos(g, n, m);
        var size := SizeOf(n, m, walk, g);
        pos := pos + size;
        walk := walk + 2;
        m := m + 1;
      }
    }

    /** The bytes that an edge takes. */
    method SizeOf(n: nat, m: nat, walk: nat, ghost g: Graph) returns (size: nat)
      requires Is(g) && InRange(g) && BytesLaid(g, next) && n < next && m < |g[n]| && walk == BytePos(g, n) + 2 * m
      ensures size == EdgeSize(g, n, m)
    {
      hide BytePos;
      var to := state[n].edges[m].to;
      assert to == g[n][m].to < |g|;
      if to == 0 {
        return 2;
      } else if state[to].bytepos - walk == 2 {
        return 1;
      } else if m == |state[n].edges| - 1 {
        return 4;
      }
      return 3;
    }

    /** One edge of the emission pass: its bytes, or None where the jump does not fit 16 bits. */
    method EmitEdge(n: nat, m: nat, pos: nat, walk: nat, ghost g: Graph) returns (out: Option<seq<byte>>)
      requires Is(g) && InRange(g) && Sane(g) && BytesLaid(g, next) && RealLaid(g, next)
      requires n < |g| && m < |g[n]| && pos == Pos(g, n, m) && walk == BytePos(g, n) + 2 * m
      ensures out.None? <==> FarJump(g, n, m)
      ensures out.Some? ==> EdgeBytes(g, n, m, out.value)
    {
      var e := state[n].edges[m];
      assert EdgeSane(g, n, m) && e == g[n][m];
      if e.to == 0 {
        return Some([e.c / 256, e.c % 256]);
      }
      if state[e.to].bytepos - walk == 2 {
        return Some([e.c + 128]);
      }
      JumpForward(g, n, m);
      var j := state[e.to].realPos - pos;
      if j > 0xffff {
        return None;
      }
      if m == |state[n].edges| - 1 {
        return Some([e.c, j % 256, j / 256, FAIL]);
      }
      return Some([e.c, j % 256, j / 256]);
    }

    /** The emission pass; code 1 is a jump of more than 64K. */
    method Emit(ghost g: Graph) returns (code: int, table: seq<byte>)
      requires Is(g) && InRange(g) && Sane(g) && BytesLaid(g, next) && RealLaid(g, next)
      ensures code == 0 || code == 1
      ensures code == 0 ==> Encodes(g, table)
      ensures code == 1 <==> HasFarJump(g)
    {
      table := [];
      var n := 0;
      while n < next
        invariant 0 <= n <= next && |table| == RealPos(g, n) && Emitted(g, table, n, 0)
      {
        var m := 0;
        while m < |state[n].edges|
          invariant 0 <= m <= |g[n]| && |table| == Pos(g, n, m) && Emitted(g, table, n, m)
        {
          var out := EmitEdge(n, m, |table|, state[n].bytepos + 2 * m, g);
          if out.None? {
            return 1, table;
          }
          EmittedMore(g, table, n, m, out.value);
          table := table + out.value;
          m := m + 1;
        }
        NextState(g, table, n);
        n := n + 1;
      }
      AllEmitted(g, table);
      code := 0;
    }

    /** minilex on a set of strings: a table exactly when the trie fits the arrays, and every string decodes. */
    method Compile(words: Words) returns (table: Option<seq<byte>>)
      requires Valid() && Graph() == [[]] && Legal(words)
      modifies this, state
      ensures table.Some? <==> Fits(words)
      ensures table.Some? ==> forall w | 0 <= w < |words| && words[w] != [] ::
        Lookup(table.value, words[w], 0, 0) == Some((w, |words[w]|))
      ensures table.Some? ==> forall s :: Decided(words, table.value, s)
    {
      var ok, path := Build(words);
      if !ok {
        return None;
      }
      ghost var g := Graph();
      FinishedIsSane(g, path, words);
      Layout(g);
      NoFarJump(g, |words|);
      var code, bytes := Emit(g);
      forall w | 0 <= w < |words| && words[w] != [] ensures Lookup(bytes, words[w], 0, 0) == Some((w, |words[w]|)) {
        MembersDecode(g, path, words, bytes, w);
      }
      forall s ensures Decided(words, bytes, s) {
        EveryString(g, path, words, bytes, s);
      }
      return Some(bytes);
    }
  }

  /** lextable_decode. */
  method LextableDecode(table: seq<byte>, start: nat, c: byte) returns (d: Decoded)
    ensures d == Decode(table, start, c)
  {
    var pos := start;
    while pos < |table|
      invariant Decode(table, pos, c) == Decode(table, start, c)
      decreases |table| - pos
    {
      if table[pos] >= 128 {
        if table[pos] % 128 != c {
          return Reject;
        }
        pos := pos + 1;
        if pos >= |table| {
          return Overrun;
        }
        return if table[pos] == FAIL then Reject else At(pos);
      }
      if table[pos] < FAIL {
        return At(pos);
      }
      if table[pos] == c {
        if pos + 2 >= |table| {
          return Overrun;
        }
        return At(pos + table[pos + 1] as int + 256 * table[pos + 2] as int);
      }
      pos := pos + 3;
    }
    return Overrun;
  }

  /** The string at `n`, unless it is empty, decodes to its index. */
  predicate DecodesTo(table: seq<byte>, words: Words, n: nat)
    requires n < |words|
  {
    words[n] == [] || (var r := Lookup(table, words[n], 0, 0); r.Some? && r.value.0 == n)
  }

  /** The decoder refuses a character of the string before it comes to a terminal. */
  predicate Refuses(table: seq<byte>, word: seq<byte>, pos: nat, m: nat)
    requires m <= |word|
    decreases |word| - m
  {
    m < |word| &&
    var d := Decode(table, pos, word[m]);
    d.Reject? || (d.At? && d.pos + 1 < |table| && table[d.pos] >= FAIL && Refuses(table, word, d.pos, m + 1))
  }

  lemma {:induction false} RefusedIsNone(table: seq<byte>, word: seq<byte>, pos: nat, m: nat)
    requires m <= |word|
    ensures Refuses(table, word, pos, m) ==> Lookup(table, word, pos, m) == None
    decreases |word| - m
  {
    if m < |word| {
      var d := Decode(table, pos, word[m]);
      if d.At? {
        RefusedIsNone(table, word, d.pos, m + 1);
      }
    }
  }

  /** The closing check of minilex: 0 exactly if every string decodes to its index; `n` is the first that does not. */
  method TryAll(words: Words, table: seq<byte>) returns (code: int, n: nat)
    ensures code == 0 <==> forall w | 0 <= w < |words| :: DecodesTo(table, words, w)
    ensures code != 0 ==>
      && n < |words| && !DecodesTo(table, words, n) && (forall w | 0 <= w < n :: DecodesTo(table, words, w))
      && code == if Refuses(table, words[n], 0, 0) then 3 else 4
  {
    n := 0;
    while n < |words|
      invariant 0 <= n <= |words| && forall w | 0 <= w < n :: DecodesTo(table, words, w)
    {
      if words[n] != [] {
        var refused, y := TryOne(words[n], table);
        RefusedIsNone(table, words[n], 0, 0);
        if refused || y != n {
          assert !DecodesTo(table, words, n);
          return if refused then 3 else 4, n;
        }
      }
      n := n + 1;
    }
    return 0, n;
  }

  /** The terminal that a string decodes to, -1 if it has none; or the decoder refuses one of its characters. */
  method TryOne(word: seq<byte>, table: seq<byte>) returns (refused: bool, y: int)
    ensures refused == Refuses(table, word, 0, 0)
    ensures y == var r := Lookup(table, word, 0, 0); if r.Some? then r.value.0 else -1
  {
    var walk, m := 0, 0;
    while m < |word|
      invariant 0 <= m <= |word|
      invariant Lookup(table, word, walk, m) == Lookup(table, word, 0, 0)
      invariant Refuses(table, word, walk, m) == Refuses(table, word, 0, 0)
    {
      var d := LextableDecode(table, walk, word[m]);
      if !d.At? || d.pos + 1 >= |table| {
        return d.Reject?, -1;
      }
      walk := d.pos;
      if table[walk] < FAIL {
        return false, 256 * table[walk] as int + table[walk + 1] as int;
      }
      m := m + 1;
    }
    return false, -1;
  }

  /** The bytes that an edge is written as. */
  predicate EdgeBytes(g: Graph, i: nat, m: nat, bytes: seq<byte>)
    requires InRange(g) && i < |g| && m < |g[i]|
  {
    var e := g[i][m];
    && |bytes| == EdgeSize(g, i, m)
    && if e.to == 0 then bytes[0] == e.c / 256 && bytes[1] == e.c % 256
       else if Chained(g, i, m) then bytes[0] == e.c + 128
       else
         && bytes[0] == e.c
         && bytes[1] as int + 256 * bytes[2] as int == Jump(g, i, m)
         && (m == |g[i]| - 1 ==> bytes[3] == FAIL)
  }

  /** The edges before edge `m` of state `n` are in the table, and none has a far jump. */
  ghost predicate Emitted(g: Graph, table: seq<byte>, n: nat, m: nat)
    requires InRange(g)
  {
    forall i, k | 0 <= i < |g| && 0 <= k < |g[i]| && (i < n || (i == n && k < m)) ::
      EdgeAt(g, table, i, k) && !FarJump(g, i, k)
  }

  lemma EdgeAtKept(g: Graph, table: seq<byte>, more: seq<byte>, i: nat, k: nat)
    requires InRange(g) && i < |g| && k < |g[i]| && EdgeAt(g, table, i, k)
    ensures EdgeAt(g, table + more, i, k)
  {
  }

  lemma EmittedMore(g: Graph, table: seq<byte>, n: nat, m: nat, bytes: seq<byte>)
    requires InRange(g) && n < |g| && m < |g[n]| && Emitted(g, table, n, m) && |table| == Pos(g, n, m)
    requires EdgeBytes(g, n, m, bytes) && !FarJump(g, n, m)
    ensures Emitted(g, table + bytes, n, m + 1)
    ensures |table + bytes| == Pos(g, n, m + 1)
  {
    hide EdgeAt, FarJump;
    assert EdgeAt(g, table + bytes, n, m) by { NewEdge(g, table, n, m, bytes); }
    forall i, k | 0 <= i < |g| && 0 <= k < |g[i]| && (i < n || (i == n && k < m + 1))
      ensures EdgeAt(g, table + bytes, i, k) && !FarJump(g, i, k)
    {
      if i < n || k < m {
        EdgeAtKept(g, table, bytes, i, k);
      }
    }
  }

  lemma NewEdge(g: Graph, table: seq<byte>, n: nat, m: nat, bytes: seq<byte>)
    requires InRange(g) && n < |g| && m < |g[n]| && |table| == Pos(g, n, m) && EdgeBytes(g, n, m, bytes)
    ensures EdgeAt(g, table + bytes, n, m)
  {
    var t, p := table + bytes, |table|;
    assert forall k | 0 <= k < |bytes| :: t[p + k] == bytes[k];
    assert t[p + 0] == bytes[0];
  }

  lemma NextState(g: Graph, table: seq<byte>, n: nat)
    requires InRange(g) && n < |g| && Emitted(g, table, n, |g[n]|)
    ensures Emitted(g, table, n + 1, 0)
  {
  }

  lemma AllEmitted(g: Graph, table: seq<byte>)
    requires InRange(g) && Emitted(g, table, |g|, 0) && |table| == RealPos(g, |g|)
    ensures Encodes(g, table) && !HasFarJump(g)
  {
  }

  lemma JumpForward(g: Graph, n: nat, m: nat)
    requires InRange(g) && Sane(g) && n < |g| && m < |g[n]| && g[n][m].to != 0
    ensures Jump(g, n, m) >= 0
  {
    assert EdgeSane(g, n, m);
    RealPosGrows(g, n, g[n][m].to);
    OffsetGrows(g, n, m, |g[n]|);
  }

  lemma GrowCovered(path: Words, words: Words, n: nat, p: seq<byte>)
    requires n < |words| && words[n] != [] && p <= words[n] && Covered(path, words, n + 1)
    ensures Covered(path + [p], words, n + 1)
  {
    assert CoveredBy(p, words, n + 1);
    forall i | 0 < i < |path + [p]| ensures CoveredBy((path + [p])[i], words, n + 1) {
      assert i < |path| ==> CoveredBy(path[i], words, n + 1);
    }
  }

  lemma CoverMore(path: Words, words: Words, n: nat)
    requires n < |words| && Covered(path, words, n)
    ensures Covered(path, words, n + 1)
  {
    forall i | 0 < i < |path| ensures CoveredBy(path[i], words, n + 1) {
      assert CoveredBy(path[i], words, n);
      var w :| 0 <= w < n && words[w] != [] && path[i] <= words[w];
    }
  }

  /** An empty string is skipped. */
  lemma SkipEmpty(g: Graph, path: Words, words: Words, n: nat)
    requires n < |words| && words[n] == []
    requires Shape(g, path) && Terminals(g, path, words, n) && Covered(path, words, n)
    ensures Terminals(g, path, words, n + 1) && Covered(path, words, n + 1)
    ensures Slim(g, n) ==> Slim(g, n + 1)
  {
    CoverMore(path, words, n);
    var n' := n + 1;
    forall i | 0 <= i < |g| ensures TerminalOk(g, path, words, n', i) {
      assert TerminalOk(g, path, words, n, i);
    }
  }
}
