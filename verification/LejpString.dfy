/** Strings that are values: what the stream JSON parser hands to the callback is the string, unescaped. */
module LejpString {
  import opened Bytes
  import opened LejpStep
  import opened LejpRun

  // ----- escapes -----

  /** A piece of a string as it stands in the input: a character, a short escape, or a u escape. */
  datatype Item = Plain(c: byte) | Short(c: byte) | Hex(digits: seq<byte>)

  predicate IsLetter(c: byte) { 97 <= c <= 102 || 65 <= c <= 70 }

  /** Four hex digits, of which no letter stands behind a digit other than 0. */
  predicate ValidHex(ds: seq<byte>)
  {
    && |ds| == 4 && (forall k | 0 <= k < 4 :: 48 <= ds[k] <= 57 || IsLetter(ds[k]))
    && Clean(ds)
  }

  predicate Clean(ds: seq<byte>) { forall j, k | 0 <= j < k < |ds| && ds[j] != 48 :: !IsLetter(ds[k]) }

  /** The escapes of section 7 of RFC 8259, and that the terminator of the table counts as one. */
  predicate ValidItem(it: Item)
  {
    match it
    case Plain(c) => c >= 32 && c != 34 && c != 92
    case Short(c) => c == 34 || c == 92 || c == 47 || c == 98 || c == 102 || c == 110 || c == 114 || c == 116 || c == 0
    case Hex(ds) => ValidHex(ds)
  }

  predicate ValidItems(items: seq<Item>) { forall k | 0 <= k < |items| :: ValidItem(items[k]) }

  function Written(it: Item): seq<byte>
  {
    match it
    case Plain(c) => [c]
    case Short(c) => [92, c]
    case Hex(ds) => [92, 117] + ds
  }

  function DigitValue(c: byte): nat
  {
    if 48 <= c <= 57 then c - 48 else if 97 <= c <= 102 then c - 87 else if 65 <= c <= 70 then c - 55 else 0
  }

  /** The number that four hex digits stand for. */
  function CodeUnit(ds: seq<byte>): nat
    requires |ds| == 4
  {
    DigitValue(ds[0]) * 4096 + DigitValue(ds[1]) * 256 + DigitValue(ds[2]) * 16 + DigitValue(ds[3])
  }

  /** The encoding of a character number below 65536 (section 3 of RFC 3629). */
  function Utf8Of(v: nat): seq<byte>
    requires v < 65536
  {
    if v < 0x80 then [v]
    else if v < 0x800 then [0xc0 + v / 64, 0x80 + v % 64]
    else [0xe0 + v / 4096, 0x80 + v / 64 % 64, 0x80 + v % 64]
  }

  function Meant(it: Item): seq<byte>
    requires ValidItem(it)
  {
    match it
    case Plain(c) => [c]
    case Short(c) =>
      [if c == 98 then 8 else if c == 102 then 12 else if c == 110 then 10 else if c == 114 then 13
       else if c == 116 then 9 else c]
    case Hex(ds) => Utf8Of(CodeUnit(ds))
  }

  function AllWritten(items: seq<Item>): seq<byte>
  {
    if items == [] then [] else Written(items[0]) + AllWritten(items[1..])
  }

  function AllMeant(items: seq<Item>): seq<byte>
    requires ValidItems(items)
  {
    if items == [] then [] else Meant(items[0]) + AllMeant(items[1..])
  }

  // ----- u escapes -----

  function UniAfter(uni: nat, c: byte): nat { Shifted(uni, c).GetOr(0) }

  function OutAt(n: nat, uni: nat): seq<byte>
  {
    var b := EscByte(n, uni);
    if b.Some? then [b.value] else []
  }

  /** The bytes that the four digits of a u escape put out. */
  function Emitted(ds: seq<byte>): seq<byte>
    requires |ds| == 4
  {
    var u1 := UniAfter(0, ds[0]);
    var u2 := UniAfter(u1, ds[1]);
    var u3 := UniAfter(u2, ds[2]);
    var u4 := UniAfter(u3, ds[3]);
    OutAt(1, u1) + OutAt(2, u2) + OutAt(3, u3) + OutAt(4, u4)
  }

  predicate HexDigit(c: byte) { 48 <= c <= 57 || IsLetter(c) }

  lemma ShiftedDigit(uni: nat, c: byte)
    requires uni < 4096 && HexDigit(c)
    ensures Shifted(uni, c).Some? && DigitValue(c) < 16
    ensures UniAfter(uni, c) == if IsLetter(c) then DigitValue(c) else uni * 16 + DigitValue(c)
    ensures IsLetter(c) ==> DigitValue(c) >= 10
    ensures DigitValue(c) == 0 <==> c == 48
  {
  }

  /** With nothing lost, the bytes are the encoding of the number. */
  lemma OutIsUtf8(u1: nat, u2: nat, u3: nat, v: nat)
    requires u1 < 16 && u2 / 16 == u1 && u3 / 16 == u2 && v / 16 == u3
    ensures OutAt(1, u1) + OutAt(2, u2) + OutAt(3, u3) + OutAt(4, v) == Utf8Of(v)
  {
    assert u2 == v / 256 && u1 == v / 4096 && u3 / 4 == v / 64;
  }

  lemma CleanValues(ds: seq<byte>)
    requires |ds| == 4 && (forall k | 0 <= k < 4 :: HexDigit(ds[k])) && Clean(ds)
    ensures var u1 := UniAfter(0, ds[0]);
      var u2 := UniAfter(u1, ds[1]);
      var u3 := UniAfter(u2, ds[2]);
      var v := UniAfter(u3, ds[3]);
      u1 < 16 && u2 / 16 == u1 && u3 / 16 == u2 && v / 16 == u3 && v == CodeUnit(ds)
  {
    hide UniAfter, DigitValue, IsLetter;
    var u1 := UniAfter(0, ds[0]);
    var u2 := UniAfter(u1, ds[1]);
    var u3 := UniAfter(u2, ds[2]);
    ShiftedDigit(0, ds[0]);
    ShiftedDigit(u1, ds[1]);
    ShiftedDigit(u2, ds[2]);
    ShiftedDigit(u3, ds[3]);
  }

  /** The first letter that loses digits shows in the bytes: the second, third or fourth digit. */
  lemma LossShows(u1: nat, u2: nat, u3: nat, u4: nat, v: nat)
    requires u1 < 16 && u2 < 256 && u3 < 4096 && v < 65536
    requires || (10 <= u2 < 16 && v >= 4096)
             || (u2 >= 1 && 10 <= u3 < 16 && v / 16 == 16 * u2 + u3)
             || (u3 >= 1 && 10 <= u4 < 16 && v == 16 * u3 + u4)
    ensures OutAt(1, u1) + OutAt(2, u2) + OutAt(3, u3) + OutAt(4, u4) != Utf8Of(v)
  {
    var out, code := OutAt(1, u1) + OutAt(2, u2) + OutAt(3, u3) + OutAt(4, u4), Utf8Of(v);
    if 10 <= u2 < 16 && v >= 4096 {
      assert out[0] == 0xe0 && code[0] == 0xe0 + v / 4096;
    } else if u2 >= 1 && 10 <= u3 < 16 && v / 16 == 16 * u2 + u3 {
      assert out[if u2 >= 8 then 1 else 0] == 0xc0 + u3 / 4;
    } else {
      assert out[|out| - 1] == u4 && code[|code| - 1] == if v < 0x80 then v else 0x80 + v % 64;
    }
  }

  /** A u escape puts out the encoding of its number, exactly if no letter stands behind a digit other than 0. */
  lemma HexExactly(ds: seq<byte>)
    requires |ds| == 4 && forall k | 0 <= k < 4 :: HexDigit(ds[k])
    ensures CodeUnit(ds) < 65536
    ensures Emitted(ds) == Utf8Of(CodeUnit(ds)) <==> Clean(ds)
  {
    hide UniAfter, DigitValue, IsLetter, OutAt, Utf8Of;
    var u1 := UniAfter(0, ds[0]);
    var u2 := UniAfter(u1, ds[1]);
    var u3 := UniAfter(u2, ds[2]);
    var v := UniAfter(u3, ds[3]);
    ShiftedDigit(0, ds[0]);
    ShiftedDigit(u1, ds[1]);
    ShiftedDigit(u2, ds[2]);
    ShiftedDigit(u3, ds[3]);
    if Clean(ds) {
      CleanValues(ds);
      OutIsUtf8(u1, u2, u3, v);
    } else {
      LossShows(u1, u2, u3, v, CodeUnit(ds));
    }
  }

  // ----- what the parser does with the items of a value -----

  /** The text that a run of reports carries. */
  function TextOf(calls: seq<Event>): seq<byte>
  {
    if calls == [] then []
    else (if calls[0].StrChunk? || calls[0].StrEnd? then calls[0].text else []) + TextOf(calls[1..])
  }

  ghost predicate Agreeable(env: Env) { forall calls :: env.answer(calls) == 0 }

  /** A context inside a string that is a value. */
  predicate InValue(x: Ctx) { Valid(x) && InString(x.top) && !InName(x) }

  /** The context after the bytes `bs` of the string: full chunks are reported on the way. */
  function Received(x: Ctx, bs: seq<byte>): Ctx
    decreases |bs|
  {
    if bs == [] then x
    else
      var t := x.text + [bs[0]];
      Received(if |t| == CHUNK - 1 then Called(x, StrChunk(t)).(text := []) else x.(text := t), bs[1..])
  }

  lemma {:induction false} ReceivedConcat(x: Ctx, a: seq<byte>, b: seq<byte>)
    ensures Received(x, a + b) == Received(Received(x, a), b)
    decreases |a|
  {
    if a == [] {
      assert a + b == b;
    } else {
      assert (a + b)[1..] == a[1..] + b;
      var t := x.text + [a[0]];
      ReceivedConcat(if |t| == CHUNK - 1 then Called(x, StrChunk(t)).(text := []) else x.(text := t), a[1..], b);
    }
  }

  /** Receiving does not touch the state or the number of a u escape. */
  lemma {:induction false} ReceivedAside(x: Ctx, k: Kind, u: nat, bs: seq<byte>)
    ensures Received(x.(top := k, uni := u), bs) == Received(x, bs).(top := k, uni := u)
    decreases |bs|
  {
    if bs != [] {
      var t := x.text + [bs[0]];
      ReceivedAside(if |t| == CHUNK - 1 then Called(x, StrChunk(t)).(text := []) else x.(text := t), k, u, bs[1..]);
    }
  }

  lemma EmitStep(env: Env, x: Ctx, b: byte)
    requires InValue(x) && Agreeable(env)
    ensures Emit(env, x, b) == Next(Received(x, [b])) && InValue(Received(x, [b]))
  {
    assert [b][1..] == [];
    var t := x.text + [b];
    assert env.answer((x.calls + [StrChunk(t)])) == 0;
  }

  lemma PlainStep(env: Env, x: Ctx, it: Item)
    requires InValue(x) && x.top.Str? && Agreeable(env) && ValidItem(it) && it.Plain?
    ensures var y := Received(x, [it.c]); InValue(y) && y.top.Str? && Step(env, x, it.c) == Next(y)
  {
    EmitStep(env, x, it.c);
    ReceivedAside(x, Str, x.uni, [it.c]);
    hide Received, Waiting, Agreeable;
  }

  lemma ShortMeans(it: Item)
    requires ValidItem(it) && it.Short?
    ensures |Meant(it)| == 1 && Unescaped(it.c) == Some(Meant(it)[0]) && it.c != 117
  {
  }

  lemma ShortStep(env: Env, x: Ctx, it: Item)
    requires InValue(x) && x.top.Str? && Agreeable(env) && ValidItem(it) && it.Short?
    ensures var e, y := x.(top := Esc), Received(x, Meant(it));
      && InValue(y) && y.top.Str? && InValue(e)
      && Step(env, x, 92) == Next(e) && Step(env, e, it.c) == Next(y)
  {
    hide Meant, Unescaped, ValidItem, Good;
    ShortMeans(it);
    assert Meant(it) == [Meant(it)[0]];
    EmitStep(env, x, Meant(it)[0]);
    ReceivedAside(x, Str, x.uni, Meant(it));
    EscSteps(env, x, it.c);
  }

  lemma EscSteps(env: Env, x: Ctx, c: byte)
    requires InValue(x) && x.top.Str? && c != 117 && Unescaped(c).Some?
    ensures var e := x.(top := Esc);
      && InValue(e) && Step(env, x, 92) == Next(e) && Step(env, e, c) == Emit(env, x, Unescaped(c).value)
  {
    hide Waiting, Unescaped, Emit;
  }

  lemma HexStep(env: Env, x: Ctx, c: byte)
    requires InValue(x) && x.top.EscU? && Agreeable(env) && HexDigit(c) && x.uni < 4096
    ensures var n, u := x.top.n, UniAfter(x.uni, c);
      var y := Received(x.(top := if n == 4 then Str else EscU(n + 1), uni := u), OutAt(n, u));
      && InValue(y) && y.uni == u && y.top == (if n == 4 then Str else EscU(n + 1))
      && Step(env, x, c) == Next(y)
  {
    var n, u := x.top.n, UniAfter(x.uni, c);
    var k := if n == 4 then Str else EscU(n + 1);
    var z := x.(top := k, uni := u);
    ShiftedDigit(x.uni, c);
    if EscByte(n, u).Some? {
      EmitStep(env, z, EscByte(n, u).value);
    }
    ReceivedAside(x, k, u, OutAt(n, u));
    hide Received, Waiting, Agreeable, EscByte, Shifted;
  }

  lemma StartHex(env: Env, x: Ctx)
    requires InValue(x) && x.top.Str?
    ensures var e, h := x.(top := Esc), x.(top := EscU(1), uni := 0);
      InValue(e) && InValue(h) && Step(env, x, 92) == Next(e) && Step(env, e, 117) == Next(h)
  {
    hide Waiting;
  }

  /** What the digits from the `n`th on put out. */
  function OutFrom(n: nat, uni: nat, ds: seq<byte>): seq<byte>
    decreases |ds|
  {
    if ds == [] then []
    else
      var u := UniAfter(uni, ds[0]);
      OutAt(n, u) + OutFrom(n + 1, u, ds[1..])
  }

  lemma EmittedFrom(ds: seq<byte>)
    requires |ds| == 4
    ensures OutFrom(1, 0, ds) == Emitted(ds)
  {
    hide UniAfter, OutAt;
    var u1 := UniAfter(0, ds[0]);
    var u2 := UniAfter(u1, ds[1]);
    var u3 := UniAfter(u2, ds[2]);
    var u4 := UniAfter(u3, ds[3]);
    var b, c, d := ds[1..], ds[1..][1..], ds[1..][1..][1..];
    assert d[1..] == [];
    assert OutFrom(4, u3, d) == OutAt(4, u4) + [];
    assert OutFrom(3, u2, c) == OutAt(3, u3) + OutFrom(4, u3, d);
    assert OutFrom(2, u1, b) == OutAt(2, u2) + OutFrom(3, u2, c);
  }

  /** The number so far is below 16 to the digits so far. */
  predicate Small(n: nat, uni: nat)
  {
    if n <= 1 then uni == 0 else if n == 2 then uni < 16 else if n == 3 then uni < 256 else uni < 4096
  }

  lemma {:induction false} HexDigits(env: Env, x: Ctx, ds: seq<byte>, more: seq<byte>) returns (y: Ctx)
    requires InValue(x) && x.top.EscU? && |ds| + x.top.n == 5 && Small(x.top.n, x.uni)
    requires Agreeable(env) && forall k | 0 <= k < |ds| :: HexDigit(ds[k])
    ensures y == Received(x.(top := Str, uni := y.uni), OutFrom(x.top.n, x.uni, ds)) && InValue(y) && y.top.Str?
    ensures Run(env, x, ds + more, 0) == Run(env, y, more, 0)
    decreases |ds|
  {
    hide Run, Step, Valid, Received, OutAt, UniAfter, DigitValue, IsLetter;
    var n, u := x.top.n, UniAfter(x.uni, ds[0]);
    HexStep(env, x, ds[0]);
    ShiftedDigit(x.uni, ds[0]);
    var out := OutAt(n, u);
    var y1 := Received(x.(top := if n == 4 then Str else EscU(n + 1), uni := u), out);
    FirstChar(env, x, ds[0], ds[1..] + more);
    assert [ds[0]] + (ds[1..] + more) == ds + more;
    if n == 4 {
      y := y1;
      assert ds[1..] + more == more && out + OutFrom(5, u, ds[1..]) == out;
    } else {
      y := HexDigits(env, y1, ds[1..], more);
      var rest := OutFrom(n + 1, u, ds[1..]);
      ReceivedAside(x.(top := EscU(n + 1), uni := u), Str, y.uni, out);
      ReceivedConcat(x.(top := Str, uni := y.uni), out, rest);
    }
  }

  /** Any u escape in a value, whatever its digits. */
  lemma HexRun(env: Env, x: Ctx, ds: seq<byte>, more: seq<byte>) returns (y: Ctx)
    requires InValue(x) && x.top.Str? && Agreeable(env)
    requires |ds| == 4 && forall k | 0 <= k < 4 :: HexDigit(ds[k])
    ensures y == Received(x.(uni := y.uni), Emitted(ds)) && InValue(y) && y.top.Str?
    ensures Run(env, x, ([92, 117] + ds) + more, 0) == Run(env, y, more, 0)
  {
    hide Run, Step, Waiting, Received, Emitted, OutFrom;
    StartHex(env, x);
    var h := x.(top := EscU(1), uni := 0);
    FirstChar(env, x, 92, [117] + (ds + more));
    FirstChar(env, x.(top := Esc), 117, ds + more);
    assert ([92, 117] + ds) + more == [92] + ([117] + (ds + more));
    y := HexDigits(env, h, ds, more);
    EmittedFrom(ds);
    assert h.(top := Str, uni := y.uni) == x.(uni := y.uni);
  }

  lemma OneItem(env: Env, x: Ctx, it: Item, more: seq<byte>) returns (y: Ctx)
    requires InValue(x) && x.top.Str? && Agreeable(env) && ValidItem(it)
    ensures y == Received(x.(uni := y.uni), Meant(it)) && InValue(y) && y.top.Str?
    ensures Run(env, x, Written(it) + more, 0) == Run(env, y, more, 0)
  {
    hide Run, Step, Valid, Received, Agreeable;
    match it
    case Plain(c) =>
      PlainStep(env, x, it);
      y := Received(x, [c]);
      FirstChar(env, x, c, more);
      ReceivedAside(x, Str, x.uni, [c]);
    case Short(c) =>
      ShortStep(env, x, it);
      y := Received(x, Meant(it));
      FirstChar(env, x, 92, [c] + more);
      FirstChar(env, x.(top := Esc), c, more);
      assert [92, c] + more == [92] + ([c] + more);
      ReceivedAside(x, Str, x.uni, Meant(it));
    case Hex(ds) =>
      y := HexRun(env, x, ds, more);
      HexExactly(ds);
  }

  lemma {:induction false} ItemsRun(env: Env, x: Ctx, items: seq<Item>, more: seq<byte>) returns (y: Ctx)
    requires InValue(x) && x.top.Str? && Agreeable(env) && ValidItems(items)
    ensures y == Received(x.(uni := y.uni), AllMeant(items)) && InValue(y) && y.top.Str?
    ensures Run(env, x, AllWritten(items) + more, 0) == Run(env, y, more, 0)
    decreases |items|
  {
    hide Run, Valid, Agreeable, Step, Received, Meant, Written, ValidItem;
    if items == [] {
      y := x;
      assert AllWritten(items) + more == more;
      NothingReceived(x);
    } else {
      var first, rest := Written(items[0]), AllWritten(items[1..]);
      var z := OneItem(env, x, items[0], rest + more);
      assert first + (rest + more) == AllWritten(items) + more;
      y := ItemsRun(env, z, items[1..], more);
      ReceivedAside(x.(uni := z.uni), Str, y.uni, Meant(items[0]));
      ReceivedConcat(x.(uni := y.uni), Meant(items[0]), AllMeant(items[1..]));
    }
  }

  lemma NothingReceived(x: Ctx)
    ensures Received(x, []) == x
  {
  }

  /** Everything else behind a backslash is rejected, and so is a u escape with another character among its digits. */
  lemma BadEscape(env: Env, x: Ctx, c: byte, more: seq<byte>)
    requires InValue(x) && !x.top.Str?
    requires if x.top.Esc? then c != 117 && !ValidItem(Short(c)) else !HexDigit(c)
    ensures Run(env, x, [c] + more, 0).1.Rejected?
  {
    hide Run;
    FirstChar(env, x, c, more);
    hide Waiting, Emit;
  }

  // ----- a whole string -----

  /** The chunks reported and the text that is left hold all that was received, in order. */
  lemma {:induction false} ChunksConserve(x: Ctx, bs: seq<byte>)
    requires |x.text| < CHUNK - 1
    ensures var y := Received(x, bs);
      && x.calls <= y.calls && |y.text| < CHUNK - 1
      && y == x.(text := y.text, calls := y.calls)
      && TextOf(y.calls[|x.calls|..]) + y.text == x.text + bs
      && (forall k | |x.calls| <= k < |y.calls| :: y.calls[k].StrChunk? && |y.calls[k].text| == CHUNK - 1)
    decreases |bs|
  {
    if bs != [] {
      var y := Received(x, bs);
      var t := x.text + [bs[0]];
      var z := if |t| == CHUNK - 1 then Called(x, StrChunk(t)).(text := []) else x.(text := t);
      ChunksConserve(z, bs[1..]);
      assert t + bs[1..] == x.text + bs;
      if |t| == CHUNK - 1 {
        var later := y.calls[|z.calls|..];
        assert y.calls[|x.calls|] == z.calls[|x.calls|] == StrChunk(t);
        assert y.calls[|x.calls|..] == [StrChunk(t)] + later;
        assert (t + TextOf(later)) + y.text == t + (TextOf(later) + y.text);
        assert t + ([] + bs[1..]) == t + bs[1..];
      }
    }
  }

  lemma {:induction false} TextOfSnoc(calls: seq<Event>, e: Event)
    ensures TextOf(calls + [e]) == TextOf(calls) + (if e.StrChunk? || e.StrEnd? then e.text else [])
  {
    var p := if e.StrChunk? || e.StrEnd? then e.text else [];
    if calls == [] {
      assert calls + [e] == [e] && [e][1..] == [];
      assert p + TextOf([]) == p;
    } else {
      assert (calls + [e])[1..] == calls[1..] + [e];
      TextOfSnoc(calls[1..], e);
      var h := if calls[0].StrChunk? || calls[0].StrEnd? then calls[0].text else [];
      assert h + (TextOf(calls[1..]) + p) == (h + TextOf(calls[1..])) + p;
    }
  }

  /** The context after the opening quote of a value. */
  function Opened(x: Ctx): Ctx
  {
    x.(text := [], below := x.below + [CommaOrEnd], top := Str, calls := x.calls + [StrStart])
  }

  lemma OpenStep(env: Env, x: Ctx)
    requires Valid(x) && x.top.Value? && !x.comment && |x.below| + 1 < MAX_DEPTH && Agreeable(env)
    ensures InValue(Opened(x)) && Step(env, x, 34) == Next(Opened(x))
  {
    Deeper(x.below, CommaOrEnd);
  }

  /** The context after the closing quote. */
  function Closed(y: Ctx): Ctx
    requires |y.below| > 0
  {
    Pop(Called(y, StrEnd(y.text)))
  }

  lemma CloseStep(env: Env, y: Ctx)
    requires InValue(y) && y.top.Str? && Agreeable(env)
    ensures Valid(Closed(y)) && Step(env, y, 34) == Next(Closed(y))
  {
  }

  lemma StringRun(env: Env, x: Ctx, items: seq<Item>, more: seq<byte>) returns (y: Ctx)
    requires Valid(x) && x.top.Value? && !x.comment && |x.below| + 1 < MAX_DEPTH
    requires Agreeable(env) && ValidItems(items)
    ensures y == Received(Opened(x).(uni := y.uni), AllMeant(items)) && InValue(y) && y.top.Str?
    ensures Valid(Closed(y)) && !Pending(Closed(y))
    ensures Run(env, x, ([34] + (AllWritten(items) + [34])) + more, 0) == Run(env, Closed(y), more, 0)
  {
    hide Run, Valid, Agreeable, Step, Received, Opened, Closed;
    OpenStep(env, x);
    var rest := AllWritten(items) + ([34] + more);
    FirstChar(env, x, 34, rest);
    assert ([34] + (AllWritten(items) + [34])) + more == [34] + rest;
    OpenedTop(x);
    y := ItemsRun(env, Opened(x), items, [34] + more);
    CloseStep(env, y);
    FirstChar(env, y, 34, more);
  }

  lemma OpenedTop(x: Ctx)
    ensures Opened(x).top.Str?
  {
  }

  lemma Delivered(x1: Ctx, y: Ctx, bs: seq<byte>)
    requires x1.text == [] && |x1.calls| > 0 && |x1.below| > 0
    requires x1.calls <= y.calls && y == x1.(text := y.text, calls := y.calls)
    requires TextOf(y.calls[|x1.calls|..]) + y.text == x1.text + bs
    ensures var z := Closed(y);
      var n := |x1.calls|;
      && z.below == x1.below[..|x1.below| - 1] && z.top == x1.below[|x1.below| - 1]
      && z.calls == y.calls + [StrEnd(y.text)] && z.calls[..n] == x1.calls
      && TextOf(z.calls[n..]) == bs
  {
    var z := Closed(y);
    var n := |x1.calls|;
    assert x1.text + bs == bs;
    assert z.calls[n..] == y.calls[n..] + [StrEnd(y.text)];
    TextOfSnoc(y.calls[n..], StrEnd(y.text));
  }

  /**
    * A string that is a value, of any length and with any escapes, reaches the callback between a start and an end
    * report: the texts reported in between are the unescaped string, in full chunks and a shorter rest.
    */
  lemma StringDelivered(env: Env, x: Ctx, items: seq<Item>)
    requires Valid(x) && x.top.Value? && !x.comment && |x.below| + 1 < MAX_DEPTH
    requires Agreeable(env) && ValidItems(items)
    ensures var (z, ret) := Run(env, x, [34] + (AllWritten(items) + [34]), 0);
      var n := |x.calls| + 1;
      && ret == Continue && Valid(z) && z.top == CommaOrEnd && z.below == x.below
      && |z.calls| > n && z.calls[..n] == x.calls + [StrStart] && z.calls[|z.calls| - 1].StrEnd?
      && TextOf(z.calls[n..]) == AllMeant(items)
      && (forall k | n <= k < |z.calls| - 1 :: z.calls[k].StrChunk? && |z.calls[k].text| == CHUNK - 1)
  {
    hide Run, Agreeable, Step, Received, Waiting, AllMeant, AllWritten, ValidItems;
    var text := [34] + (AllWritten(items) + [34]);
    var y := StringRun(env, x, items, []);
    assert text + [] == text;
    NothingLeft(env, Closed(y));
    var x1 := Opened(x).(uni := y.uni);
    ChunksConserve(x1, AllMeant(items));
    Delivered(x1, y, AllMeant(items));
  }

  lemma NothingLeft(env: Env, x: Ctx)
    requires Valid(x) && !Pending(x)
    ensures Run(env, x, [], 0) == (x, Continue)
  {
  }
}
