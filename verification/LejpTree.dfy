/** Whole documents: the stream JSON parser reports a tree exactly as it is, exactly if it takes the tree at all. */
module LejpTree {
  import opened Bytes
  import opened LejpStep
  import opened LejpRun
  import opened LejpString

  /** White space: a blank character, or a comment up to the end of its line. */
  datatype Blank = Space(c: byte) | Comment(text: seq<byte>)

  type Gap = seq<Blank>

  datatype Json =
    | JObject(pairs: Pairs)
    | JArray(elems: Elems)
    | JString(items: seq<Item>)
    | JNumber(digits: seq<byte>)
    | JTrue | JFalse | JNull

  /** The elements of an array, with the white space before and after each. */
  datatype Elems = NoElem(gap: Gap) | Elem(before: Gap, v: Json, after: Gap, rest: Elems)

  /** The pairs of an object, with the white space before the name, the colon and the value, and after the value. */
  datatype Pairs =
    | NoPair(gap: Gap)
    | Pair(before: Gap, name: seq<Item>, colon: Gap, value: Gap, v: Json, after: Gap, rest: Pairs)

  // ----- text, reports, and what the parser takes -----

  const QUOTE: byte := '"' as int
  const COMMA: byte := ',' as int
  const COLON: byte := ':' as int

  predicate ValidBlank(b: Blank)
  {
    match b
    case Space(c) => c == 32 || c == 9 || c == 10 || c == 13
    case Comment(text) => 10 !in text
  }

  predicate ValidGap(g: Gap) { forall k | 0 <= k < |g| :: ValidBlank(g[k]) }

  /** White space in front of `more`. */
  function GapText(g: Gap, more: seq<byte>): seq<byte>
  {
    if g == [] then more
    else
      match g[0]
      case Space(c) => [c] + GapText(g[1..], more)
      case Comment(text) => ['#' as int] + (text + ([10] + GapText(g[1..], more)))
  }

  /** The text of `v` in front of `more`. */
  function Text(v: Json, more: seq<byte>): seq<byte>
  {
    match v
    case JObject(ps) => ['{' as int] + PairsText(ps, ['}' as int] + more)
    case JArray(es) => ['[' as int] + ElemsText(es, [']' as int] + more)
    case JString(items) => ([QUOTE] + (AllWritten(items) + [QUOTE])) + more
    case JNumber(ds) => ds + more
    case JTrue => ['t' as int] + (['r' as int, 'u' as int, 'e' as int] + more)
    case JFalse => ['f' as int] + (['a' as int, 'l' as int, 's' as int, 'e' as int] + more)
    case JNull => ['n' as int] + (['u' as int, 'l' as int, 'l' as int] + more)
  }

  function ElemsText(es: Elems, more: seq<byte>): seq<byte>
  {
    match es
    case NoElem(gap) => GapText(gap, more)
    case Elem(before, v, after, rest) => GapText(before, Text(v, GapText(after, MoreElems(rest, more))))
  }

  /** What stands behind an element. */
  function MoreElems(es: Elems, more: seq<byte>): seq<byte>
  {
    match es
    case NoElem(gap) => GapText(gap, more)
    case Elem(before, v, after, rest) =>
      [COMMA] + GapText(before, Text(v, GapText(after, MoreElems(rest, more))))
  }

  /** A name and its colon. */
  function NameText(name: seq<Item>, colon: Gap, value: Gap, more: seq<byte>): seq<byte>
  {
    [QUOTE] + (AllWritten(name) + ([QUOTE] + GapText(colon, [COLON] + GapText(value, more))))
  }

  function PairsText(ps: Pairs, more: seq<byte>): seq<byte>
  {
    match ps
    case NoPair(gap) => GapText(gap, more)
    case Pair(before, name, colon, value, v, after, rest) =>
      GapText(before, NameText(name, colon, value, Text(v, GapText(after, MorePairs(rest, more)))))
  }

  /** What stands behind a pair. */
  function MorePairs(ps: Pairs, more: seq<byte>): seq<byte>
  {
    match ps
    case NoPair(gap) => GapText(gap, more)
    case Pair(before, name, colon, value, v, after, rest) =>
      [COMMA] + GapText(before, NameText(name, colon, value, Text(v, GapText(after, MorePairs(rest, more)))))
  }

  /** The reports of a string: full chunks, and the rest with its end. */
  function Cut(bs: seq<byte>): seq<Event>
  {
    if |bs| < 254 then [StrEnd(bs)] else [StrChunk(bs[..254])] + Cut(bs[254..])
  }

  function Reports(v: Json): seq<Event>
    requires Proper(v)
  {
    match v
    case JObject(ps) => [ObjectStart] + PairsReports(ps) + [ObjectEnd]
    case JArray(es) => [ArrayStart] + ElemsReports(es) + [ArrayEnded]
    case JString(items) => [StrStart] + Cut(AllMeant(items))
    case JNumber(ds) => [IntValue(ds)]
    case JTrue => [TrueValue]
    case JFalse => [FalseValue]
    case JNull => [NullValue]
  }

  function ElemsReports(es: Elems): seq<Event>
    requires ProperElems(es)
  {
    if es.NoElem? then [] else Reports(es.v) + ElemsReports(es.rest)
  }

  function PairsReports(ps: Pairs): seq<Event>
    requires ProperPairs(ps)
  {
    if ps.NoPair? then [] else [PairName] + Reports(ps.v) + PairsReports(ps.rest)
  }

  /** Strings are characters and escapes, numbers are digits, and white space is white space. */
  predicate Proper(v: Json)
  {
    match v
    case JObject(ps) => ProperPairs(ps)
    case JArray(es) => ProperElems(es)
    case JString(items) => ValidItems(items)
    case JNumber(ds) => |ds| > 0 && forall k | 0 <= k < |ds| :: 48 <= ds[k] <= 57
    case _ => true
  }

  predicate ProperElems(es: Elems)
  {
    match es
    case NoElem(gap) => ValidGap(gap)
    case Elem(before, v, after, rest) => ValidGap(before) && Proper(v) && ValidGap(after) && ProperElems(rest)
  }

  predicate ProperPairs(ps: Pairs)
  {
    match ps
    case NoPair(gap) => ValidGap(gap)
    case Pair(before, name, colon, value, v, after, rest) =>
      && ValidGap(before) && ValidItems(name) && ValidGap(colon) && ValidGap(value)
      && Proper(v) && ValidGap(after) && ProperPairs(rest)
  }

  /** The parser takes `v` with `level` levels open: nothing empty, at most ten digits, and room on the stack. */
  predicate Takes(v: Json, level: nat)
  {
    match v
    case JObject(ps) => ps.Pair? && level + 1 < MAX_DEPTH && TakesPairs(ps, level + 1)
    case JArray(es) => es.Elem? && level + 1 < MAX_DEPTH && TakesElems(es, level + 1)
    case JString(_) => level + 1 < MAX_DEPTH
    case JNumber(ds) => |ds| <= 10
    case _ => true
  }

  predicate TakesElems(es: Elems, level: nat) { es.NoElem? || (Takes(es.v, level) && TakesElems(es.rest, level)) }

  predicate TakesPairs(ps: Pairs, level: nat)
  {
    ps.NoPair? || (level + 1 < MAX_DEPTH && Takes(ps.v, level) && TakesPairs(ps.rest, level))
  }

  // ----- white space -----

  /** A state in which white space is skipped. */
  predicate Skips(x: Ctx) { Valid(x) && !Keeps(x.top) && !x.comment }

  lemma BlankSteps(env: Env, x: Ctx, c: byte)
    requires Skips(x)
    ensures c == 32 || c == 9 || c == 10 || c == 13 ==> Step(env, x, c) == Next(x)
    ensures c == '#' as int ==> Step(env, x, c) == Next(x.(comment := true))
    ensures var y := x.(comment := true);
      Valid(y) && Step(env, y, c) == Next(if c == 10 then x else y)
  {
  }

  lemma {:induction false} CommentRun(env: Env, x: Ctx, text: seq<byte>, more: seq<byte>)
    requires Skips(x) && 10 !in text
    ensures Valid(x.(comment := true)) && Run(env, x.(comment := true), text + ([10] + more), 0) == Run(env, x, more, 0)
    decreases |text|
  {
    hide Run, Step, Valid, Keeps;
    var y := x.(comment := true);
    if text == [] {
      BlankSteps(env, x, 10);
      assert text + ([10] + more) == [10] + more;
      FirstChar(env, y, 10, more);
    } else {
      var rest := text[1..] + ([10] + more);
      BlankSteps(env, x, text[0]);
      assert text + ([10] + more) == [text[0]] + rest;
      FirstChar(env, y, text[0], rest);
      CommentRun(env, x, text[1..], more);
    }
  }

  /** White space of any kind and length changes nothing. */
  lemma {:induction false} GapRun(env: Env, x: Ctx, g: Gap, more: seq<byte>)
    requires Skips(x) && ValidGap(g)
    ensures Run(env, x, GapText(g, more), 0) == Run(env, x, more, 0)
    decreases |g|
  {
    hide Run, Step, Valid, Keeps;
    if g != [] {
      var rest := GapText(g[1..], more);
      GapRun(env, x, g[1..], more);
      match g[0]
      case Space(c) =>
        BlankSteps(env, x, c);
        FirstChar(env, x, c, rest);
      case Comment(text) =>
        BlankSteps(env, x, '#' as int);
        FirstChar(env, x, '#' as int, text + ([10] + rest));
        CommentRun(env, x, text, rest);
    }
  }

  /** Nothing else is taken for white space: a document begins with a brace or is rejected. */
  lemma NotSkipped(env: Env, x: Ctx, c: byte, more: seq<byte>)
    requires AtStart(x) && c != 32 && c != 9 && c != 10 && c != 13 && c != '#' as int && c != '{' as int
    ensures Run(env, x, [c] + more, 0).1 == Rejected(IDLE_NO_BRACE)
  {
    assert ([c] + more)[0] == c;
  }

  // ----- single characters -----

  /** A callback that goes on with everything, and an index stack that is never full. */
  ghost predicate Willing(env: Env) { Agreeable(env) && forall calls :: !env.indexFull(calls) }

  /** Before a value. */
  predicate AtValue(x: Ctx) { Valid(x) && x.top.Value? && !x.comment }

  /** After a value that was reported as `told`. */
  predicate Told(x: Ctx, y: Ctx, told: seq<Event>)
  {
    Valid(y) && y.top.CommaOrEnd? && !y.comment && y.below == x.below && y.calls == x.calls + told
  }

  // ----- strings, numbers and words -----

  lemma {:induction false} Cuts(x: Ctx, bs: seq<byte>)
    requires |x.text| < CHUNK - 1
    ensures var y := Received(x, bs); y.calls + [StrEnd(y.text)] == x.calls + Cut(x.text + bs)
    decreases |bs|
  {
    if bs == [] {
      assert x.text + bs == x.text;
    } else {
      var t := x.text + [bs[0]];
      assert x.text + bs == t + bs[1..];
      if |t| == CHUNK - 1 {
        var z := Called(x, StrChunk(t)).(text := []);
        Cuts(z, bs[1..]);
        assert (t + bs[1..])[..CHUNK - 1] == t && (t + bs[1..])[CHUNK - 1..] == bs[1..] == z.text + bs[1..];
      } else {
        Cuts(x.(text := t), bs[1..]);
      }
    }
  }

  lemma StringValue(env: Env, x: Ctx, items: seq<Item>, more: seq<byte>) returns (y: Ctx)
    requires AtValue(x) && Willing(env) && ValidItems(items) && |x.below| + 1 < MAX_DEPTH
    ensures Told(x, y, [StrStart] + Cut(AllMeant(items)))
    ensures Run(env, x, ([QUOTE] + (AllWritten(items) + [QUOTE])) + more, 0) == Run(env, y, more, 0)
  {
    hide Run, Valid, Step, Received, Cut, AllMeant, AllWritten, ValidItems;
    var bs := AllMeant(items);
    var z := StringRun(env, x, items, more);
    var x1 := Opened(x).(uni := z.uni);
    ChunksConserve(x1, bs);
    Cuts(x1, bs);
    y := Closed(z);
    assert [] + bs == bs;
    assert y.below == x.below;
  }

  lemma StringTooDeep(env: Env, x: Ctx, more: seq<byte>)
    requires AtValue(x) && Willing(env) && |x.below| + 1 >= MAX_DEPTH
    ensures Run(env, x, [QUOTE] + more, 0).1.Rejected?
  {
    FirstChar(env, x, QUOTE, more);
    hide Run, Good, Waiting;
    assert Step(env, x, QUOTE).Reject?;
  }

  /** What can stand right after a value. */
  predicate EndsValue(c: byte)
  {
    c == COMMA || c == ']' as int || c == '}' as int || c == 32 || c == 9 || c == 10 || c == 13 || c == '#' as int
  }

  lemma GapEnds(g: Gap, more: seq<byte>)
    requires ValidGap(g) && more != [] && EndsValue(more[0])
    ensures GapText(g, more) != [] && EndsValue(GapText(g, more)[0])
  {
  }

  lemma NumberValue(env: Env, x: Ctx, ds: seq<byte>, more: seq<byte>) returns (y: Ctx)
    requires AtValue(x) && Willing(env) && Proper(JNumber(ds)) && more != [] && EndsValue(more[0])
    ensures if |ds| <= 10 then Told(x, y, [IntValue(ds)]) && Run(env, x, ds + more, 0) == Run(env, y, more, 0)
      else Run(env, x, ds + more, 0).1.Rejected?
  {
    assert AllDigits(ds) && EndsNumber(more[0]);
    hide Valid, Step, Good, Run, EndsValue, EndsNumber, AllDigits, Proper;
    WholeNumber(env, x, ds, more[0]);
    var k := if |ds| <= 10 then |ds| else 10;
    y := Called(InDigits(x, ds[..k]), IntValue(ds[..k])).(top := CommaOrEnd);
    assert env.answer(y.calls) == 0;
    if |ds| <= 10 {
      assert ds[..k] == ds;
      GoesOn(env, x, y, ds, more);
    } else {
      assert ds + more == (ds + [more[0]]) + more[1..];
      Pieces(env, x, ds + [more[0]], more[1..], 0);
    }
  }

  /** What is known with one character more is so with all that follow. */
  lemma GoesOn(env: Env, x: Ctx, y: Ctx, ds: seq<byte>, more: seq<byte>)
    requires Valid(x) && !Pending(x) && Valid(y) && !Pending(y) && more != []
    requires Run(env, x, ds + [more[0]], 0) == Run(env, y, ds + [more[0]], |ds|)
    ensures Run(env, x, ds + more, 0) == Run(env, y, more, 0)
  {
    hide Valid, Pending, Step, Good, Run;
    var a := ds + [more[0]];
    assert ds + more == a + more[1..];
    Pieces(env, x, a, more[1..], 0);
    Pieces(env, y, a, more[1..], |ds|);
    RunShift(env, y, ds, more, 0);
  }

  /** The rest of the word from a position of the token table on, and its report. */
  function Letters(uni: nat): seq<byte>
    decreases 12 - uni
  {
    if uni >= 12 || Token(uni) == ' ' as int then [] else [Token(uni)] + Letters(uni + 1)
  }

  function Meaning(uni: nat): Event { if uni <= 3 then TrueValue else if uni <= 8 then FalseValue else NullValue }

  lemma TokenStep(env: Env, x: Ctx)
    requires Valid(x) && x.top.Tok? && Willing(env)
    ensures x.uni < 12 && Token(x.uni) != ' ' as int && !x.comment
    ensures var y := x.(uni := x.uni + 1);
      var z := if Token(y.uni) != ' ' as int then y else Called(y, Meaning(x.uni)).(top := CommaOrEnd);
      Step(env, x, Token(x.uni)) == Next(z) && Valid(z) && !Pending(x)
    ensures Token(x.uni + 1) != ' ' as int ==> Meaning(x.uni + 1) == Meaning(x.uni)
  {
    hide Good, Waiting;
    assert forall calls :: env.answer(calls) == 0;
  }

  lemma {:induction false} TokenRun(env: Env, x: Ctx, more: seq<byte>) returns (y: Ctx)
    requires Valid(x) && x.top.Tok? && Willing(env)
    ensures Told(x, y, [Meaning(x.uni)]) && Run(env, x, Letters(x.uni) + more, 0) == Run(env, y, more, 0)
    decreases 12 - x.uni
  {
    hide Run, Step, Valid, Meaning;
    TokenStep(env, x);
    var x1 := Step(env, x, Token(x.uni)).x;
    FirstChar(env, x, Token(x.uni), Letters(x.uni + 1) + more);
    assert [Token(x.uni)] + (Letters(x.uni + 1) + more) == Letters(x.uni) + more;
    if x1.top.Tok? {
      y := TokenRun(env, x1, more);
    } else {
      y := x1;
      assert Letters(x.uni + 1) + more == more;
    }
  }

  lemma AllLetters()
    ensures Letters(0) == ['r' as int, 'u' as int, 'e' as int]
    ensures Letters(4) == ['a' as int, 'l' as int, 's' as int, 'e' as int]
    ensures Letters(9) == ['u' as int, 'l' as int, 'l' as int]
  {
    assert Letters(2) == ['e' as int] && Letters(6) == ['s' as int, 'e' as int];
  }

  lemma WordStep(env: Env, x: Ctx, c: byte, uni: nat)
    requires AtValue(x)
    requires (c == 't' as int && uni == 0) || (c == 'f' as int && uni == 4) || (c == 'n' as int && uni == 9)
    ensures Step(env, x, c) == Next(x.(top := Tok, uni := uni)) && Valid(x.(top := Tok, uni := uni))
  {
    hide Good, Waiting;
  }

  lemma WordValue(env: Env, x: Ctx, v: Json, more: seq<byte>) returns (y: Ctx)
    requires AtValue(x) && Willing(env) && (v.JTrue? || v.JFalse? || v.JNull?)
    ensures Told(x, y, Reports(v)) && Run(env, x, Text(v, more), 0) == Run(env, y, more, 0)
  {
    hide Run, Step, Letters;
    AllLetters();
    var c: byte := if v.JTrue? then 't' as int else if v.JFalse? then 'f' as int else 'n' as int;
    var uni: nat := if v.JTrue? then 0 else if v.JFalse? then 4 else 9;
    WordStep(env, x, c, uni);
    FirstChar(env, x, c, Letters(uni) + more);
    y := TokenRun(env, x.(top := Tok, uni := uni), more);
  }

  // ----- arrays and objects -----

  /** The context after an opening bracket or brace. */
  function Entered(x: Ctx, wait: Kind, e: Event, k: Kind): Ctx
  {
    x.(below := x.below + [wait], top := k, calls := x.calls + [e])
  }

  lemma EnterArray(env: Env, x: Ctx)
    requires AtValue(x) && Willing(env)
    ensures var y, t := Entered(x, ArrayEnd, ArrayStart, Value), Step(env, x, '[' as int);
      if |x.below| + 1 < MAX_DEPTH then t == Next(y) && AtValue(y) else t.Reject?
  {
    hide Good;
    assert forall calls :: env.answer(calls) == 0;
    Deeper(x.below, ArrayEnd);
  }

  lemma EnterObject(env: Env, x: Ctx)
    requires AtValue(x) && Willing(env)
    ensures var y, t := Entered(x, CommaOrEnd, ObjectStart, Members), Step(env, x, '{' as int);
      if |x.below| + 1 < MAX_DEPTH then t == Next(y) && Valid(y) else t.Reject?
  {
    hide Good;
    assert forall calls :: env.answer(calls) == 0;
    Deeper(x.below, CommaOrEnd);
  }

  lemma CommaStep(env: Env, x: Ctx)
    requires Valid(x) && x.top.CommaOrEnd? && !x.comment
    ensures var y := x.(top := if InArray(x) then Value else MemberPair);
      Step(env, x, COMMA) == Next(y) && Valid(y)
  {
    hide Good, Waiting;
  }

  /** The closing bracket is looked at twice. */
  lemma LeaveArray(env: Env, x: Ctx)
    requires Valid(x) && x.top.CommaOrEnd? && !x.comment && InArray(x)
    ensures var y := Pop(x);
      && Step(env, x, ']' as int) == Redo(y) && Valid(y)
      && Step(env, y, ']' as int) == Next(Called(y.(top := CommaOrEnd), ArrayEnded))
      && Valid(Called(y.(top := CommaOrEnd), ArrayEnded))
  {
    hide Good;
  }

  lemma LeaveObject(env: Env, x: Ctx)
    requires Valid(x) && x.top.CommaOrEnd? && !x.comment && Willing(env)
    ensures if x.below == [] then Step(env, x, '}' as int) == Done(Called(Called(x, ObjectEnd), Complete))
      else Step(env, x, '}' as int) == Next(Called(Pop(x), ObjectEnd)) && Valid(Called(Pop(x), ObjectEnd))
  {
    hide Good;
    assert forall calls :: env.answer(calls) == 0;
  }

  // ----- names -----

  /** In the name of a pair. */
  predicate Naming(x: Ctx) { Valid(x) && x.top.Str? && InName(x) && !x.comment }

  lemma NameSteps(env: Env, x: Ctx, it: Item)
    requires Naming(x) && ValidItem(it) && !it.Hex?
    ensures it.Plain? ==> Step(env, x, it.c) == Next(x)
    ensures it.Short? ==>
      var y := x.(top := Esc); Valid(y) && Step(env, x, 92) == Next(y) && Step(env, y, it.c) == Next(x)
  {
    hide Good, Waiting;
  }

  lemma NameHexStart(env: Env, x: Ctx)
    requires Naming(x)
    ensures var e, h := x.(top := Esc), x.(top := EscU(1), uni := 0);
      Valid(e) && Valid(h) && Step(env, x, 92) == Next(e) && Step(env, e, 117) == Next(h)
  {
    hide Good, Waiting;
  }

  lemma NameHexStep(env: Env, x: Ctx, c: byte)
    requires Valid(x) && x.top.EscU? && InName(x) && HexDigit(c) && x.uni < 4096
    ensures var y := x.(top := if x.top.n == 4 then Str else EscU(x.top.n + 1), uni := UniAfter(x.uni, c));
      Valid(y) && Step(env, x, c) == Next(y)
  {
    ShiftedDigit(x.uni, c);
    hide Good, Waiting, Shifted, EscByte;
  }

  lemma {:induction false} NameHex(env: Env, x: Ctx, ds: seq<byte>, more: seq<byte>) returns (u: nat)
    requires Valid(x) && x.top.EscU? && InName(x) && 1 <= |ds| <= 4 && |ds| + x.top.n == 5
    requires Small(x.top.n, x.uni)
    requires forall k | 0 <= k < |ds| :: HexDigit(ds[k])
    ensures var y := x.(top := Str, uni := u); Valid(y) && Run(env, x, ds + more, 0) == Run(env, y, more, 0)
    decreases |ds|
  {
    hide Run, Step, Valid, UniAfter, DigitValue, IsLetter;
    u := UniAfter(x.uni, ds[0]);
    NameHexStep(env, x, ds[0]);
    ShiftedDigit(x.uni, ds[0]);
    FirstChar(env, x, ds[0], ds[1..] + more);
    assert [ds[0]] + (ds[1..] + more) == ds + more;
    if x.top.n == 4 {
      assert ds[1..] + more == more;
    } else {
      u := NameHex(env, x.(top := EscU(x.top.n + 1), uni := u), ds[1..], more);
    }
  }

  lemma NameItem(env: Env, x: Ctx, it: Item, more: seq<byte>) returns (u: nat)
    requires Naming(x) && ValidItem(it)
    ensures Naming(x.(uni := u)) && Run(env, x, Written(it) + more, 0) == Run(env, x.(uni := u), more, 0)
  {
    u := x.uni;
    hide Run, Step, Waiting;
    match it
    case Plain(c) =>
      NameSteps(env, x, it);
      FirstChar(env, x, c, more);
    case Short(c) =>
      NameSteps(env, x, it);
      FirstChar(env, x, 92, [c] + more);
      FirstChar(env, x.(top := Esc), c, more);
      assert Written(it) + more == [92] + ([c] + more);
    case Hex(ds) =>
      NameHexStart(env, x);
      FirstChar(env, x, 92, [117] + (ds + more));
      FirstChar(env, x.(top := Esc), 117, ds + more);
      u := NameHex(env, x.(top := EscU(1), uni := 0), ds, more);
      assert Written(it) + more == [92] + ([117] + (ds + more));
      assert x.(top := EscU(1), uni := 0).(top := Str, uni := u) == x.(uni := u);
  }

  lemma {:induction false} NameRun(env: Env, x: Ctx, items: seq<Item>, more: seq<byte>) returns (u: nat)
    requires Naming(x) && ValidItems(items)
    ensures Naming(x.(uni := u)) && Run(env, x, AllWritten(items) + more, 0) == Run(env, x.(uni := u), more, 0)
    decreases |items|
  {
    hide Run, Valid, Written, ValidItem;
    u := x.uni;
    if items == [] {
      assert AllWritten(items) + more == more;
    } else {
      var rest := AllWritten(items[1..]) + more;
      u := NameItem(env, x, items[0], rest);
      assert AllWritten(items) + more == Written(items[0]) + rest;
      u := NameRun(env, x.(uni := u), items[1..], more);
    }
  }

  /** Before the name of a pair. */
  predicate AtPair(x: Ctx) { Valid(x) && x.top.MemberPair? && !x.comment }

  lemma NameOpens(env: Env, x: Ctx)
    requires AtPair(x)
    ensures var y, t := x.(below := x.below + [Delim], top := Str), Step(env, x, QUOTE);
      if |x.below| + 1 < MAX_DEPTH then t == Next(y) && Naming(y) else t.Reject?
  {
    hide Good;
    Deeper(x.below, Delim);
  }

  lemma NameCloses(env: Env, x: Ctx, x1: Ctx)
    requires AtPair(x) && Willing(env)
    requires x1 == x.(below := x.below + [Delim], top := Str) && Naming(x1)
    ensures var y, z := x.(top := Delim), Called(x.(top := Value), PairName);
      && Step(env, x1, QUOTE) == Next(y) && Skips(y)
      && Step(env, y, COLON) == Next(z) && AtValue(z)
  {
    hide Good, Waiting;
    assert forall calls :: env.answer(calls) == 0;
    assert x1.below[..|x.below|] == x.below;
  }

  /** The context after a name, its colon and the white space there. */
  function AfterName(x: Ctx, u: nat): Ctx { Called(x.(top := Value, uni := u), PairName) }

  lemma NamePart(env: Env, x: Ctx, name: seq<Item>, colon: Gap, value: Gap, more: seq<byte>) returns (u: nat)
    requires AtPair(x) && Willing(env) && ValidItems(name) && ValidGap(colon) && ValidGap(value)
    ensures var text := NameText(name, colon, value, more);
      if |x.below| + 1 < MAX_DEPTH
      then AtValue(AfterName(x, u)) && Run(env, x, text, 0) == Run(env, AfterName(x, u), more, 0)
      else Run(env, x, text, 0).1.Rejected?
  {
    hide Run, Step, Waiting, GapText, AllWritten, ValidItems, ValidGap;
    u := 0;
    var x1 := x.(below := x.below + [Delim], top := Str);
    var behind := GapText(colon, [COLON] + GapText(value, more));
    NameOpens(env, x);
    FirstChar(env, x, QUOTE, AllWritten(name) + ([QUOTE] + behind));
    if |x.below| + 1 < MAX_DEPTH {
      u := NameRun(env, x1, name, [QUOTE] + behind);
      var x2 := x.(uni := u);
      NameCloses(env, x2, x1.(uni := u));
      FirstChar(env, x1.(uni := u), QUOTE, behind);
      GapRun(env, x2.(top := Delim), colon, [COLON] + GapText(value, more));
      FirstChar(env, x2.(top := Delim), COLON, GapText(value, more));
      GapRun(env, AfterName(x, u), value, more);
    }
  }

  // ----- trees -----

  /** `v` is taken and reported, or rejected, exactly by whether the parser takes it at this depth. */
  lemma {:induction false} ValueRun(env: Env, x: Ctx, v: Json, more: seq<byte>) returns (y: Ctx)
    requires AtValue(x) && Willing(env) && Proper(v) && more != [] && EndsValue(more[0])
    ensures if Takes(v, |x.below|) then Told(x, y, Reports(v)) && Run(env, x, Text(v, more), 0) == Run(env, y, more, 0)
      else Run(env, x, Text(v, more), 0).1.Rejected?
    decreases v, 1
  {
    hide Run, Step, Valid;
    match v
    case JObject(ps) => y := ObjectValue(env, x, ps, more);
    case JArray(es) => y := ArrayValue(env, x, es, more);
    case JString(items) =>
      if |x.below| + 1 < MAX_DEPTH {
        y := StringValue(env, x, items, more);
      } else {
        StringTooDeep(env, x, (AllWritten(items) + [QUOTE]) + more);
        assert [QUOTE] + ((AllWritten(items) + [QUOTE]) + more) == ([QUOTE] + (AllWritten(items) + [QUOTE])) + more;
        y := x;
      }
    case JNumber(ds) => y := NumberValue(env, x, ds, more);
    case _ => y := WordValue(env, x, v, more);
  }

  lemma ArrayParts(es: Elems, level: nat, more: seq<byte>)
    requires ProperElems(es)
    ensures var v := JArray(es);
      && Proper(v) && Text(v, more) == ['[' as int] + ElemsText(es, [']' as int] + more)
      && Reports(v) == [ArrayStart] + ElemsReports(es) + [ArrayEnded]
      && (Takes(v, level) <==> es.Elem? && level + 1 < MAX_DEPTH && TakesElems(es, level + 1))
  {
  }

  lemma ObjectParts(ps: Pairs, level: nat, more: seq<byte>)
    requires ProperPairs(ps)
    ensures var v := JObject(ps);
      && Proper(v) && Text(v, more) == ['{' as int] + PairsText(ps, ['}' as int] + more)
      && Reports(v) == [ObjectStart] + PairsReports(ps) + [ObjectEnd]
      && (Takes(v, level) <==> ps.Pair? && level + 1 < MAX_DEPTH && TakesPairs(ps, level + 1))
  {
  }

  lemma {:induction false} ArrayValue(env: Env, x: Ctx, es: Elems, more: seq<byte>) returns (y: Ctx)
    requires AtValue(x) && Willing(env) && ProperElems(es)
    ensures var v := JArray(es);
      if Takes(v, |x.below|) then Told(x, y, Reports(v)) && Run(env, x, Text(v, more), 0) == Run(env, y, more, 0)
      else Run(env, x, Text(v, more), 0).1.Rejected?
    decreases es, 1
  {
    hide Run, Step, Valid, Text, ElemsText, Reports, ElemsReports, Takes, TakesElems, ProperElems;
    y := x;
    ArrayParts(es, |x.below|, more);
    EnterArray(env, x);
    var x1 := Entered(x, ArrayEnd, ArrayStart, Value);
    var after := [']' as int] + more;
    FirstChar(env, x, '[' as int, ElemsText(es, after));
    if |x.below| + 1 < MAX_DEPTH {
      if es.NoElem? {
        EmptyArray(env, x1, es, more);
      } else {
        var x2 := ElemsRun(env, x1, es, after);
        if TakesElems(es, |x1.below|) {
          y := ArrayEnds(env, x, x2, more);
          assert x.calls + [ArrayStart] + ElemsReports(es) + [ArrayEnded] == x.calls + Reports(JArray(es));
        }
      }
    }
  }

  lemma EmptyArray(env: Env, x: Ctx, es: Elems, more: seq<byte>)
    requires AtValue(x) && es.NoElem? && ProperElems(es)
    ensures Run(env, x, ElemsText(es, [']' as int] + more), 0).1.Rejected?
  {
    hide Run, Good, Waiting;
    GapRun(env, x, es.gap, [']' as int] + more);
    FirstChar(env, x, ']' as int, more);
    assert Step(env, x, ']' as int).Reject?;
  }

  lemma ArrayEnds(env: Env, x: Ctx, x2: Ctx, more: seq<byte>) returns (y: Ctx)
    requires Valid(x2) && x2.top.CommaOrEnd? && !x2.comment && x2.below == x.below + [ArrayEnd]
    ensures Valid(y) && y.top.CommaOrEnd? && !y.comment && y.below == x.below && y.calls == x2.calls + [ArrayEnded]
    ensures Run(env, x2, [']' as int] + more, 0) == Run(env, y, more, 0)
  {
    hide Run, Step, Valid;
    LeaveArray(env, x2);
    FirstChar(env, x2, ']' as int, more);
    FirstChar(env, Pop(x2), ']' as int, more);
    assert x2.below[..|x.below|] == x.below;
    y := Called(Pop(x2).(top := CommaOrEnd), ArrayEnded);
  }

  lemma ElemsParts(es: Elems, level: nat, more: seq<byte>)
    requires es.Elem? && ProperElems(es)
    ensures ValidGap(es.before) && Proper(es.v) && ValidGap(es.after) && ProperElems(es.rest)
    ensures ElemsText(es, more) == GapText(es.before, Text(es.v, GapText(es.after, MoreElems(es.rest, more))))
    ensures TakesElems(es, level) <==> Takes(es.v, level) && TakesElems(es.rest, level)
    ensures ElemsReports(es) == Reports(es.v) + ElemsReports(es.rest)
  {
  }

  lemma MoreParts(es: Elems, level: nat, more: seq<byte>)
    requires ProperElems(es) && more != [] && more[0] == ']' as int
    ensures es.NoElem? ==> ValidGap(es.gap) && ElemsReports(es) == [] && TakesElems(es, level)
    ensures MoreElems(es, more) == if es.NoElem? then GapText(es.gap, more) else [COMMA] + ElemsText(es, more)
    ensures MoreElems(es, more) != [] && EndsValue(MoreElems(es, more)[0])
  {
    if es.NoElem? {
      GapEnds(es.gap, more);
    }
  }

  lemma ToldTwice(x: Ctx, y: Ctx, z: Ctx, a: seq<Event>, b: seq<Event>)
    requires Told(x, y, a) && Told(y, z, b)
    ensures Told(x, z, a + b)
  {
    hide Valid;
    assert x.calls + a + b == x.calls + (a + b);
  }

  lemma {:induction false} ElemsRun(env: Env, x: Ctx, es: Elems, more: seq<byte>) returns (y: Ctx)
    requires AtValue(x) && InArray(x) && Willing(env) && es.Elem? && ProperElems(es)
    requires more != [] && more[0] == ']' as int
    ensures if TakesElems(es, |x.below|)
      then Told(x, y, ElemsReports(es)) && Run(env, x, ElemsText(es, more), 0) == Run(env, y, more, 0)
      else Run(env, x, ElemsText(es, more), 0).1.Rejected?
    decreases es, 0
  {
    hide Run, Step, Valid, Text, ElemsText, MoreElems, Reports, ElemsReports, Takes, TakesElems, Proper, ProperElems;
    hide GapText, ValidGap, EndsValue, Willing;
    ElemsParts(es, |x.below|, more);
    MoreParts(es.rest, |x.below|, more);
    var behind := MoreElems(es.rest, more);
    GapEnds(es.after, behind);
    GapRun(env, x, es.before, Text(es.v, GapText(es.after, behind)));
    y := ValueRun(env, x, es.v, GapText(es.after, behind));
    if Takes(es.v, |x.below|) {
      var x1 := y;
      GapRun(env, x1, es.after, behind);
      y := ElemsTail(env, x1, es.rest, more);
      if TakesElems(es.rest, |x.below|) {
        ToldTwice(x, x1, y, Reports(es.v), ElemsReports(es.rest));
      }
    }
  }

  /** What stands behind an element. */
  lemma {:induction false} ElemsTail(env: Env, x: Ctx, es: Elems, more: seq<byte>) returns (y: Ctx)
    requires Valid(x) && x.top.CommaOrEnd? && !x.comment && InArray(x) && Willing(env) && ProperElems(es)
    requires more != [] && more[0] == ']' as int
    ensures var text := MoreElems(es, more);
      if TakesElems(es, |x.below|)
      then Told(x, y, ElemsReports(es)) && Run(env, x, text, 0) == Run(env, y, more, 0)
      else Run(env, x, text, 0).1.Rejected?
    decreases es, 1
  {
    hide Run, Step, Valid, ElemsText, MoreElems, ElemsReports, TakesElems, ProperElems, GapText;
    MoreParts(es, |x.below|, more);
    if es.NoElem? {
      y := x;
      GapRun(env, x, es.gap, more);
    } else {
      CommaStep(env, x);
      FirstChar(env, x, COMMA, ElemsText(es, more));
      y := ElemsRun(env, x.(top := Value), es, more);
    }
  }

  lemma {:induction false} ObjectValue(env: Env, x: Ctx, ps: Pairs, more: seq<byte>) returns (y: Ctx)
    requires AtValue(x) && Willing(env) && ProperPairs(ps)
    ensures var v := JObject(ps);
      if Takes(v, |x.below|) then Told(x, y, Reports(v)) && Run(env, x, Text(v, more), 0) == Run(env, y, more, 0)
      else Run(env, x, Text(v, more), 0).1.Rejected?
    decreases ps, 2
  {
    hide Run, Step, Valid, Text, PairsText, Reports, PairsReports, Takes, TakesPairs, ProperPairs;
    y := x;
    ObjectParts(ps, |x.below|, more);
    EnterObject(env, x);
    var x1 := Entered(x, CommaOrEnd, ObjectStart, Members);
    var after := ['}' as int] + more;
    FirstChar(env, x, '{' as int, PairsText(ps, after));
    if |x.below| + 1 < MAX_DEPTH {
      var x2 := MembersRun(env, x1, ps, after);
      if ps.Pair? && TakesPairs(ps, |x1.below|) {
        y := ObjectEnds(env, x, x2, more);
        assert x.calls + [ObjectStart] + PairsReports(ps) + [ObjectEnd] == x.calls + Reports(JObject(ps));
      }
    }
  }

  lemma ObjectEnds(env: Env, x: Ctx, x2: Ctx, more: seq<byte>) returns (y: Ctx)
    requires Valid(x2) && x2.top.CommaOrEnd? && !x2.comment && x2.below == x.below + [CommaOrEnd] && Willing(env)
    ensures Valid(y) && y.top.CommaOrEnd? && !y.comment && y.below == x.below && y.calls == x2.calls + [ObjectEnd]
    ensures Run(env, x2, ['}' as int] + more, 0) == Run(env, y, more, 0)
  {
    hide Run, Step, Valid, Willing;
    LeaveObject(env, x2);
    FirstChar(env, x2, '}' as int, more);
    assert x2.below[..|x.below|] == x.below;
    y := Called(Pop(x2), ObjectEnd);
  }

  lemma MembersStep(env: Env, x: Ctx, c: byte)
    requires Valid(x) && x.top.Members? && !x.comment && (c == QUOTE || c == '}' as int)
    ensures var y := x.(top := MemberPair);
      if c == QUOTE then Step(env, x, c) == Redo(y) && AtPair(y) else Step(env, x, c).Reject?
  {
    hide Good, Waiting;
  }

  /** The text of some pairs behind the white space that comes first. */
  function PairText(ps: Pairs, more: seq<byte>): seq<byte>
    requires ps.Pair?
  {
    NameText(ps.name, ps.colon, ps.value, Text(ps.v, GapText(ps.after, MorePairs(ps.rest, more))))
  }

  lemma PairsParts(ps: Pairs, level: nat, more: seq<byte>)
    requires ps.Pair? && ProperPairs(ps)
    ensures ValidGap(ps.before) && ValidItems(ps.name) && ValidGap(ps.colon) && ValidGap(ps.value)
    ensures Proper(ps.v) && ValidGap(ps.after) && ProperPairs(ps.rest)
    ensures PairsText(ps, more) == GapText(ps.before, PairText(ps, more))
    ensures PairText(ps, more)
         == NameText(ps.name, ps.colon, ps.value, Text(ps.v, GapText(ps.after, MorePairs(ps.rest, more))))
    ensures PairText(ps, more) != [] && PairText(ps, more)[0] == QUOTE
    ensures TakesPairs(ps, level) <==> level + 1 < MAX_DEPTH && Takes(ps.v, level) && TakesPairs(ps.rest, level)
    ensures PairsReports(ps) == [PairName] + Reports(ps.v) + PairsReports(ps.rest)
  {
  }

  lemma MorePairsParts(ps: Pairs, level: nat, more: seq<byte>)
    requires ProperPairs(ps) && more != [] && more[0] == '}' as int
    ensures ps.NoPair? ==> ValidGap(ps.gap) && PairsReports(ps) == [] && TakesPairs(ps, level)
    ensures MorePairs(ps, more) == if ps.NoPair? then GapText(ps.gap, more) else [COMMA] + PairsText(ps, more)
    ensures MorePairs(ps, more) != [] && EndsValue(MorePairs(ps, more)[0])
  {
    if ps.NoPair? {
      GapEnds(ps.gap, more);
    }
  }

  lemma {:induction false} MembersRun(env: Env, x: Ctx, ps: Pairs, more: seq<byte>) returns (y: Ctx)
    requires Valid(x) && x.top.Members? && !x.comment && !InArray(x) && Willing(env) && ProperPairs(ps)
    requires more != [] && more[0] == '}' as int
    ensures if ps.Pair? && TakesPairs(ps, |x.below|)
      then Told(x, y, PairsReports(ps)) && Run(env, x, PairsText(ps, more), 0) == Run(env, y, more, 0)
      else Run(env, x, PairsText(ps, more), 0).1.Rejected?
    decreases ps, 1
  {
    hide Run, Step, Valid, Text, PairText, MorePairs, PairsReports, TakesPairs, ProperPairs;
    y := x;
    if ps.Pair? {
      hide PairsText, GapText;
      PairsParts(ps, |x.below|, more);
      var text := PairText(ps, more);
      GapRun(env, x, ps.before, text);
      MembersStep(env, x, QUOTE);
      FirstChar(env, x, QUOTE, text[1..]);
      assert [text[0]] + text[1..] == text;
      y := PairsRun(env, x.(top := MemberPair), ps, more);
    } else {
      EmptyObject(env, x, ps, more);
    }
  }

  lemma EmptyObject(env: Env, x: Ctx, ps: Pairs, more: seq<byte>)
    requires Valid(x) && x.top.Members? && !x.comment && ps.NoPair? && ProperPairs(ps)
    requires more != [] && more[0] == '}' as int
    ensures Run(env, x, PairsText(ps, more), 0).1.Rejected?
  {
    hide Run, Step, Waiting;
    GapRun(env, x, ps.gap, more);
    MembersStep(env, x, '}' as int);
    FirstChar(env, x, '}' as int, more[1..]);
    assert [more[0]] + more[1..] == more;
  }

  lemma {:induction false} PairsRun(env: Env, x: Ctx, ps: Pairs, more: seq<byte>) returns (y: Ctx)
    requires AtPair(x) && !InArray(x) && Willing(env) && ps.Pair? && ProperPairs(ps)
    requires more != [] && more[0] == '}' as int
    ensures if TakesPairs(ps, |x.below|)
      then Told(x, y, PairsReports(ps)) && Run(env, x, PairText(ps, more), 0) == Run(env, y, more, 0)
      else Run(env, x, PairText(ps, more), 0).1.Rejected?
    decreases ps, 0
  {
    hide Run, Step, Valid, Text, NameText, PairText, PairsText, MorePairs, Reports, PairsReports, Takes, TakesPairs;
    hide Proper, ProperPairs, GapText, ValidGap, EndsValue, Willing;
    y := x;
    PairsParts(ps, |x.below|, more);
    MorePairsParts(ps.rest, |x.below|, more);
    var behind := MorePairs(ps.rest, more);
    GapEnds(ps.after, behind);
    var u := NamePart(env, x, ps.name, ps.colon, ps.value, Text(ps.v, GapText(ps.after, behind)));
    if |x.below| + 1 < MAX_DEPTH {
      var x1 := ValueRun(env, AfterName(x, u), ps.v, GapText(ps.after, behind));
      if Takes(ps.v, |x.below|) {
        GapRun(env, x1, ps.after, behind);
        y := PairsTail(env, x1, ps.rest, more);
        if TakesPairs(ps.rest, |x.below|) {
          NamedToo(x, u, x1, Reports(ps.v));
          ToldTwice(x, x1, y, [PairName] + Reports(ps.v), PairsReports(ps.rest));
        }
      }
    }
  }

  lemma NamedToo(x: Ctx, u: nat, y: Ctx, told: seq<Event>)
    requires Told(AfterName(x, u), y, told)
    ensures Told(x, y, [PairName] + told)
  {
    hide Valid;
    assert x.calls + [PairName] + told == x.calls + ([PairName] + told);
  }

  /** What stands behind a pair. */
  lemma {:induction false} PairsTail(env: Env, x: Ctx, ps: Pairs, more: seq<byte>) returns (y: Ctx)
    requires Valid(x) && x.top.CommaOrEnd? && !x.comment && !InArray(x) && Willing(env) && ProperPairs(ps)
    requires more != [] && more[0] == '}' as int
    ensures var text := MorePairs(ps, more);
      if TakesPairs(ps, |x.below|)
      then Told(x, y, PairsReports(ps)) && Run(env, x, text, 0) == Run(env, y, more, 0)
      else Run(env, x, text, 0).1.Rejected?
    decreases ps, 1
  {
    hide Run, Step, Valid, Text, PairText, PairsText, MorePairs, PairsReports, TakesPairs, ProperPairs, GapText;
    MorePairsParts(ps, |x.below|, more);
    if ps.NoPair? {
      y := x;
      GapRun(env, x, ps.gap, more);
    } else {
      PairsParts(ps, |x.below|, more);
      CommaStep(env, x);
      var x1 := x.(top := MemberPair);
      FirstChar(env, x, COMMA, PairsText(ps, more));
      GapRun(env, x1, ps.before, PairText(ps, more));
      y := PairsRun(env, x1, ps, more);
    }
  }

  /** Before the first character. */
  predicate AtStart(x: Ctx) { Valid(x) && x.below == [] && x.top.Idle? && !x.comment }

  /**
    * For every tree whose root is an object, with any white space and comments between its tokens and anything behind
    * it: the parse completes exactly if nothing in the tree is empty, no number has more than ten digits and the stack
    * suffices. Then it stops behind the tree, and the reports are exactly those of the tree, in order; otherwise it is
    * rejected.
    */
  lemma TreeTheorem(env: Env, x: Ctx, gap: Gap, ps: Pairs, more: seq<byte>)
    requires AtStart(x) && Willing(env) && ValidGap(gap) && ProperPairs(ps)
    ensures Ended(x, ps, more, Run(env, x, GapText(gap, Text(JObject(ps), more)), 0))
  {
    hide Run, Step, Valid, Text, PairsText, Reports, PairsReports, TakesPairs, ProperPairs, Willing, GapText, ValidGap;
    GapRun(env, x, gap, Text(JObject(ps), more));
    ObjectParts(ps, |x.below|, more);
    var x1 := DocumentStarts(env, x, PairsText(ps, ['}' as int] + more));
    var y := MembersRun(env, x1, ps, ['}' as int] + more);
    if ps.Pair? && TakesPairs(ps, |x.below|) {
      DocumentEnds(env, y, more);
      assert x.calls + [ObjectStart] + PairsReports(ps) + [ObjectEnd] == x.calls + Reports(JObject(ps));
    }
  }

  /** Completed in front of `more`, with exactly the reports of the tree, or rejected because of it. */
  predicate Ended(x: Ctx, ps: Pairs, more: seq<byte>, r: (Ctx, Ret))
    requires ProperPairs(ps)
  {
    if ps.Pair? && TakesPairs(ps, |x.below|)
    then r.1 == Completed(|more|) && r.0.calls == x.calls + Reports(JObject(ps)) + [Complete]
    else r.1.Rejected?
  }

  lemma DocumentStarts(env: Env, x: Ctx, text: seq<byte>) returns (x1: Ctx)
    requires AtStart(x) && Willing(env)
    ensures Valid(x1) && x1 == Called(x, ObjectStart).(top := Members)
    ensures Run(env, x, ['{' as int] + text, 0) == Run(env, x1, text, 0)
  {
    StartStep(env, x);
    hide Run, Step;
    FirstChar(env, x, '{' as int, text);
    x1 := Called(x, ObjectStart).(top := Members);
  }

  lemma DocumentEnds(env: Env, y: Ctx, more: seq<byte>)
    requires Valid(y) && y.top.CommaOrEnd? && !y.comment && y.below == [] && Willing(env)
    ensures Run(env, y, ['}' as int] + more, 0)
         == (Called(Called(y, ObjectEnd), Complete), Completed(|more|))
  {
    hide Run, Step;
    LeaveObject(env, y);
    FirstChar(env, y, '}' as int, more);
  }

  lemma StartStep(env: Env, x: Ctx)
    requires AtStart(x) && Willing(env)
    ensures var y := Called(x, ObjectStart).(top := Members);
      Step(env, x, '{' as int) == Next(y) && Valid(y)
  {
    hide Good;
    assert forall calls :: env.answer(calls) == 0;
  }
}
