/** Whole runs of the stream JSON parser: how it goes on over pieces of input, and what it reports. */
module LejpRun {
  import opened Bytes
  import opened LejpStep

  datatype Ret = Continue | Rejected(code: int) | Completed(unused: nat)

  /** A context that the loop can be in at position `i`. */
  predicate Ready(x: Ctx, json: seq<byte>, i: nat)
  {
    Valid(x) && (Pending(x) ==> i < |json| && Digit(json[i]))
  }

  /** The loop of lejp_parse from position `i` on. */
  function Run(env: Env, x: Ctx, json: seq<byte>, i: nat): (r: (Ctx, Ret))
    requires i <= |json| && Ready(x, json, i)
    ensures r.1.Continue? || r.1.Completed? ==> Valid(r.0) && !Pending(r.0)
    ensures r.1.Rejected? ==> IsCode(r.1.code)
    decreases |json| - i, Rank(x.top)
  {
    if i == |json| then (x, Continue)
    else
      var t := Step(env, x, json[i]);
      match t
      case Next(y) => Run(env, y, json, i + 1)
      case Redo(y) => Run(env, y, json, i)
      case Reject(y, code) => (Called(y, Failed), Rejected(code))
      case Done(y) => (y, Completed(|json| - i - 1))
  }

  // ----- the input may come in pieces -----

  lemma {:induction false} RunShift(env: Env, x: Ctx, a: seq<byte>, b: seq<byte>, j: nat)
    requires j <= |b| && Ready(x, b, j)
    ensures Ready(x, a + b, |a| + j) && Run(env, x, a + b, |a| + j) == Run(env, x, b, j)
    decreases |b| - j, Rank(x.top)
  {
    hide Valid, Pending, Step, Good;
    if j < |b| {
      assert (a + b)[|a| + j] == b[j];
      var t := Step(env, x, b[j]);
      StepGood(env, x, b[j]);
      if t.Next? {
        RunShift(env, t.x, a, b, j + 1);
      } else if t.Redo? {
        RunShift(env, t.x, a, b, j);
      }
    }
  }

  lemma StepGood(env: Env, x: Ctx, c: byte)
    requires Valid(x) && (Pending(x) ==> Digit(c))
    ensures var t := Step(env, x, c);
      && (t.Next? ==> Valid(t.x) && !Pending(t.x))
      && (t.Redo? ==> Valid(t.x) && Rank(t.x.top) < Rank(x.top) && (Pending(t.x) ==> Digit(c)))
  {
  }

  /** What a parse of `a` that ended in `r` becomes when `b` follows. */
  function Then(env: Env, r: (Ctx, Ret), b: seq<byte>): (Ctx, Ret)
    requires r.1.Continue? ==> Valid(r.0) && !Pending(r.0)
  {
    match r.1
    case Continue => Run(env, r.0, b, 0)
    case Rejected(_) => r
    case Completed(n) => (r.0, Completed(n + |b|))
  }

  /** Parsing two pieces one after the other is parsing their concatenation. */
  lemma {:induction false} Pieces(env: Env, x: Ctx, a: seq<byte>, b: seq<byte>, i: nat)
    requires i <= |a| && Ready(x, a, i)
    ensures Ready(x, a + b, i) && Run(env, x, a + b, i) == Then(env, Run(env, x, a, i), b)
    decreases |a| - i, Rank(x.top)
  {
    hide Valid, Pending, Step, Good;
    if i == |a| {
      RunShift(env, x, a, b, 0);
    } else {
      assert (a + b)[i] == a[i];
      var t := Step(env, x, a[i]);
      StepGood(env, x, a[i]);
      if t.Next? {
        Pieces(env, t.x, a, b, i + 1);
      } else if t.Redo? {
        Pieces(env, t.x, a, b, i);
      }
    }
  }

  /** The first character of the input, and what the parse then is. */
  lemma FirstChar(env: Env, x: Ctx, c: byte, more: seq<byte>)
    requires Valid(x) && !Pending(x)
    ensures var t := Step(env, x, c);
      && (t.Next? ==> Valid(t.x) && !Pending(t.x) && Run(env, x, [c] + more, 0) == Run(env, t.x, more, 0))
      && (t.Redo? ==> Ready(t.x, [c] + more, 0) && Run(env, x, [c] + more, 0) == Run(env, t.x, [c] + more, 0))
      && (t.Reject? ==> Run(env, x, [c] + more, 0).1.Rejected?)
      && (t.Done? ==> Run(env, x, [c] + more, 0) == (t.x, Completed(|more|)))
  {
    hide Valid, Pending, Step, Good;
    StepGood(env, x, c);
    var t := Step(env, x, c);
    assert ([c] + more)[0] == c;
    if t.Next? {
      RunShift(env, t.x, [c], more, 0);
    }
  }

  // ----- how long it takes -----

  /** The number of turns of the loop. */
  function Turns(env: Env, x: Ctx, json: seq<byte>, i: nat): nat
    requires i <= |json| && Ready(x, json, i)
    decreases |json| - i, Rank(x.top)
  {
    if i == |json| then 0
    else
      match Step(env, x, json[i])
      case Next(y) => 1 + Turns(env, y, json, i + 1)
      case Redo(y) => 1 + Turns(env, y, json, i)
      case _ => 1
  }

  /** The number of turns in which the character at `i` is looked at, from now on. */
  function Looks(env: Env, x: Ctx, json: seq<byte>, i: nat): nat
    requires i < |json| && Ready(x, json, i)
    decreases Rank(x.top)
  {
    match Step(env, x, json[i])
    case Redo(y) => 1 + Looks(env, y, json, i)
    case _ => 1
  }

  /** How often a character can be looked at in a state. */
  function LooksLeft(k: Kind, c: byte): nat
  {
    match k
    case NumExp => if Digit(c) then 3 else 1
    case Value => if Digit(c) then 3 else 1
    case NumInt => if c == ']' as int then 3 else 2
    case CommaOrEnd => if c == ']' as int then 2 else 1
    case Members => 2
    case _ => 1
  }

  lemma RedoLeaves(env: Env, x: Ctx, c: byte)
    requires Valid(x) && (Pending(x) ==> Digit(c))
    ensures var t := Step(env, x, c); t.Redo? ==> LooksLeft(t.x.top, c) < LooksLeft(x.top, c)
  {
    hide Good, Waiting;
  }

  /** No character is looked at more than three times. */
  lemma {:induction false} ThreeLooks(env: Env, x: Ctx, json: seq<byte>, i: nat)
    requires i < |json| && Ready(x, json, i)
    ensures Looks(env, x, json, i) <= LooksLeft(x.top, json[i]) <= 3
    decreases Rank(x.top)
  {
    hide Valid, Pending, Step, Good;
    RedoLeaves(env, x, json[i]);
    StepGood(env, x, json[i]);
    var t := Step(env, x, json[i]);
    if t.Redo? {
      ThreeLooks(env, t.x, json, i);
    }
  }

  /** So a parse takes at most three turns for each character. */
  lemma {:induction false} ThreeTurns(env: Env, x: Ctx, json: seq<byte>, i: nat)
    requires i <= |json| && Ready(x, json, i)
    ensures i < |json| ==> Turns(env, x, json, i) <= Looks(env, x, json, i) + 3 * (|json| - i - 1)
    ensures Turns(env, x, json, i) <= 3 * (|json| - i)
    decreases |json| - i, Rank(x.top)
  {
    hide Valid, Pending, Step, Good;
    if i < |json| {
      ThreeLooks(env, x, json, i);
      var t := Step(env, x, json[i]);
      StepGood(env, x, json[i]);
      if t.Next? {
        ThreeTurns(env, t.x, json, i + 1);
      } else if t.Redo? {
        ThreeTurns(env, t.x, json, i);
      }
    }
  }

  // ----- numbers -----

  predicate NoFloat(calls: seq<Event>) { forall k | 0 <= k < |calls| :: !calls[k].FloatValue? }

  /** No number with a point is ever reported, although there is an event for it. */
  lemma {:induction false} NeverAFloat(env: Env, x: Ctx, json: seq<byte>, i: nat)
    requires i <= |json| && Ready(x, json, i) && NoFloat(x.calls)
    ensures NoFloat(Run(env, x, json, i).0.calls)
    decreases |json| - i, Rank(x.top)
  {
    if i < |json| {
      var t := Step(env, x, json[i]);
      StepNoFloat(env, x, json[i]);
      hide Valid, Pending, Step, Good;
      StepGood(env, x, json[i]);
      if t.Next? {
        NeverAFloat(env, t.x, json, i + 1);
      } else if t.Redo? {
        NeverAFloat(env, t.x, json, i);
      }
    }
  }

  lemma StepNoFloat(env: Env, x: Ctx, c: byte)
    requires Valid(x) && (Pending(x) ==> Digit(c)) && NoFloat(x.calls)
    ensures NoFloat(Step(env, x, c).x.calls)
  {
    hide Handle, Good, Waiting;
    if !x.comment && !(IsSpace(c) && !Keeps(x.top)) {
      if InString(x.top) {
        StringNoFloat(env, x, c);
      } else if InNumber(x.top) {
        NumberNoFloat(env, x, c);
      } else {
        OtherNoFloat(env, x, c);
      }
    }
  }

  lemma StringNoFloat(env: Env, x: Ctx, c: byte)
    requires Valid(x) && InString(x.top) && NoFloat(x.calls)
    ensures NoFloat(Handle(env, x, c).x.calls)
  {
    hide Good, Waiting, Shifted, EscByte, Unescaped;
  }

  lemma NumberNoFloat(env: Env, x: Ctx, c: byte)
    requires Valid(x) && InNumber(x.top) && (Pending(x) ==> Digit(c)) && NoFloat(x.calls)
    ensures NoFloat(Handle(env, x, c).x.calls)
  {
    hide Good, Waiting;
    assert !x.num.point;
  }

  lemma OtherNoFloat(env: Env, x: Ctx, c: byte)
    requires Valid(x) && !x.comment && !InString(x.top) && !InNumber(x.top) && NoFloat(x.calls)
    ensures NoFloat(Handle(env, x, c).x.calls)
  {
    hide Good, Waiting, Token, OnStr, OnEsc, OnEscU, OnNumInt, OnNumExp;
  }

  predicate AllDigits(ds: seq<byte>) { forall k | 0 <= k < |ds| :: Digit(ds[k]) }

  predicate EndsNumber(c: byte) { !Digit(c) && c != '.' as int && c != 'e' as int && c != 'E' as int }

  /** The context inside a number of which the digits `ds` were taken. */
  function InDigits(x: Ctx, ds: seq<byte>): Ctx
  {
    x.(top := NumInt, text := ds, num := Num(|ds|, false, false, false, false))
  }

  /**
    * A whole number is reported with all its digits, exactly if it has at most ten; of a longer one the first ten
    * are reported, and the parse is rejected.
    */
  lemma WholeNumber(env: Env, x: Ctx, ds: seq<byte>, c: byte)
    requires Valid(x) && x.top.Value? && !x.comment
    requires |ds| > 0 && AllDigits(ds) && EndsNumber(c)
    ensures var k := if |ds| <= 10 then |ds| else 10;
      var y := Called(InDigits(x, ds[..k]), IntValue(ds[..k])).(top := CommaOrEnd);
      var r := Run(env, x, ds + [c], 0);
      if Refused(env, y) then r.1 == Rejected(CALLBACK) && r.0.calls == y.calls + [Failed]
      else if |ds| > 10 then r.1 == Rejected(C_OR_E_NEITHER) && r.0.calls == y.calls + [Failed]
      else Valid(y) && r == Run(env, y, ds + [c], |ds|)
  {
    var json := ds + [c];
    assert Step(env, x, json[0]) == Redo(InDigits(x, []));
    DigitsRun(env, x, ds, c, 0);
  }

  lemma {:induction false} DigitsRun(env: Env, x: Ctx, ds: seq<byte>, c: byte, i: nat)
    requires Valid(x) && x.top.Value? && !x.comment
    requires i <= |ds| && i <= 10 && |ds| > 0 && AllDigits(ds) && EndsNumber(c)
    ensures var k := if |ds| <= 10 then |ds| else 10;
      var y := Called(InDigits(x, ds[..k]), IntValue(ds[..k])).(top := CommaOrEnd);
      && Ready(InDigits(x, ds[..i]), ds + [c], i)
      && var r := Run(env, InDigits(x, ds[..i]), ds + [c], i);
        if Refused(env, y) then r.1 == Rejected(CALLBACK) && r.0.calls == y.calls + [Failed]
        else if |ds| > 10 then r.1 == Rejected(C_OR_E_NEITHER) && r.0.calls == y.calls + [Failed]
        else Valid(y) && r == Run(env, y, ds + [c], |ds|)
    decreases |ds| - i
  {
    hide Step, Valid, Good;
    var json := ds + [c];
    if i < |ds| && i < 10 {
      NextDigit(env, x, ds, i);
      DigitsRun(env, x, ds, c, i + 1);
    } else {
      NumberDone(env, x, ds[..i], json[i]);
    }
  }

  lemma NextDigit(env: Env, x: Ctx, ds: seq<byte>, i: nat)
    requires Valid(x) && x.top.Value? && !x.comment && i < |ds| && i < 10 && AllDigits(ds)
    ensures Valid(InDigits(x, ds[..i])) && Step(env, InDigits(x, ds[..i]), ds[i]) == Next(InDigits(x, ds[..i + 1]))
  {
    hide Good, Waiting;
    assert ds[..i] + [ds[i]] == ds[..i + 1];
  }

  lemma NumberDone(env: Env, x: Ctx, ds: seq<byte>, c: byte)
    requires Valid(x) && x.top.Value? && !x.comment && 0 < |ds| <= 10 && AllDigits(ds)
    requires EndsNumber(c) || (|ds| == 10 && Digit(c))
    ensures var z := Called(InDigits(x, ds), IntValue(ds));
      var y := z.(top := CommaOrEnd);
      && Valid(InDigits(x, ds)) && Valid(y)
      && Step(env, InDigits(x, ds), c) == (if Refused(env, y) then Reject(z, CALLBACK) else Redo(y))
      && (Digit(c) ==> Step(env, y, c) == Reject(y, C_OR_E_NEITHER))
  {
    hide Good, Waiting;
  }

  /** A value cannot begin with a minus sign. */
  lemma NoNegative(env: Env, x: Ctx, json: seq<byte>, i: nat)
    requires Valid(x) && x.top.Value? && !x.comment && i < |json| && json[i] == '-' as int
    ensures Run(env, x, json, i).1 == Rejected(BAD_VALUE_START)
  {
  }

  // ----- the return value -----

  /** What lejp_parse returns: the reason for a rejection goes through an unsigned char. */
  function ReturnValue(r: Ret): int
  {
    match r
    case Continue => -1
    case Rejected(code) => (code + 256) % 256
    case Completed(n) => n
  }

  /** Only LEJP_CONTINUE is returned as a negative number. */
  lemma OnlyContinueIsNegative(r: Ret)
    requires r.Rejected? ==> IsCode(r.code)
    ensures ReturnValue(r) < 0 <==> r.Continue?
    ensures r.Rejected? ==> ReturnValue(r) == 256 + r.code
  {
  }

  /** A completed parse that leaves `n` bytes cannot be told from a rejected one, exactly for these `n`. */
  lemma Mistakable(n: nat)
    ensures (exists code :: IsCode(code) && ReturnValue(Rejected(code)) == ReturnValue(Completed(n)))
       <==> n == 233 || (235 <= n <= 254 && n != 236 && n != 245 && n != 251)
  {
    if n == 233 || (235 <= n <= 254 && n != 236 && n != 245 && n != 251) {
      assert IsCode(n - 256);
    }
  }
}
