/**
  * What the stream JSON parser refuses: in every state, exactly which characters, and with which reason; and what a
  * callback that refuses brings about.
  */
module LejpRejects {
  import opened Bytes
  import opened LejpStep
  import opened LejpRun
  import opened LejpTree

  // ----- one character -----

  predicate Blank(c: byte) { c == 32 || c == 9 || c == 10 || c == 13 || c == '#' as int }

  predicate OneOf(c: byte, s: string) { exists i | 0 <= i < |s| :: c == s[i] as int }

  predicate Decimal(c: byte) { 48 <= c <= 57 }

  /** The levels that are open, the top one included, are all there can be. */
  predicate Full(x: Ctx) { |x.below| == 11 }

  /** After a value: a comma, or the end of the array or object that it is in. */
  function AfterValue(x: Ctx, c: byte): Option<int>
  {
    if Blank(c) || c == ',' as int || c == '}' as int then None
    else if c != ']' as int then Some(-21)
    else if x.below == [] then Some(-15)
    else if !x.below[|x.below| - 1].ArrayEnd? then Some(-16)
    else None
  }

  /** A digit inside a number: a number has ten at most, and what follows it is no digit. */
  function MoreDigits(x: Ctx): Option<int> { if x.num.dcount < 10 then None else Some(-21) }

  /** Why a character is refused; None if it is taken. */
  function Refusal(x: Ctx, c: byte): Option<int>
  {
    match x.top
    case Str => if c < 32 then Some(-6) else None
    case Esc => if c == 0 || OneOf(c, "u\"\\/bfnrt") then None else Some(-7)
    case EscU(_) => if Decimal(c) || OneOf(c, "abcdefABCDEF") then None else Some(-8)
    case NumInt =>
      if Decimal(c) then MoreDigits(x)
      else if c == '.' as int then Some(-12)
      else if c == 'e' as int || c == 'E' as int then if x.num.exp then Some(-12) else None
      else AfterValue(x, c)
    case NumExp => if Decimal(c) then MoreDigits(x) else if c == '+' as int || c == '-' as int then None else Some(-13)
    case Tok => if c == Token(x.uni) then None else Some(-14)
    case _ => if x.comment || Blank(c) then None else RefusalBetween(x, c)
  }

  /** The same in the states that skip white space and comments. */
  function RefusalBetween(x: Ctx, c: byte): Option<int>
  {
    match x.top
    case Idle => if c == '{' as int then None else Some(-2)
    case Members => if c == '}' as int then Some(-3) else NameStarts(x, c)
    case MemberPair => NameStarts(x, c)
    case Delim => if c == ':' as int then None else Some(-9)
    case Value =>
      if Decimal(c) || OneOf(c, "tfn") then None
      else if !OneOf(c, "\"{[") then Some(-10)
      else if Full(x) then Some(-18) else None
    case ArrayEnd => if c == ',' as int || c == ']' as int then None else Some(-17)
    case _ => AfterValue(x, c)
  }

  function NameStarts(x: Ctx, c: byte): Option<int>
  {
    if c != '"' as int then Some(-4) else if Full(x) then Some(-18) else None
  }

  lemma Strings(c: byte)
    ensures OneOf(c, "tfn") <==> c == 't' as int || c == 'f' as int || c == 'n' as int
    ensures OneOf(c, "\"{[") <==> c == '"' as int || c == '{' as int || c == '[' as int
  {
    assert "tfn"[0] == 't' && "tfn"[1] == 'f' && "tfn"[2] == 'n';
    assert "\"{["[0] == '"' && "\"{["[1] == '{' && "\"{["[2] == '[';
  }

  lemma EscapeString(c: byte)
    ensures OneOf(c, "u\"\\/bfnrt") <==> c == 'u' as int || (c != 0 && Unescaped(c).Some?)
  {
    var s := "u\"\\/bfnrt";
    assert s[0] == 'u' && s[1] == '"' && s[2] == '\\' && s[3] == '/' && s[4] == 'b' && s[5] == 'f';
    assert s[6] == 'n' && s[7] == 'r' && s[8] == 't' && |s| == 9;
  }

  lemma HexString(c: byte)
    ensures OneOf(c, "abcdefABCDEF") <==> 97 <= c <= 102 || 65 <= c <= 70
  {
    var s := "abcdefABCDEF";
    assert s[0] == 'a' && s[1] == 'b' && s[2] == 'c' && s[3] == 'd' && s[4] == 'e' && s[5] == 'f';
    assert s[6] == 'A' && s[7] == 'B' && s[8] == 'C' && s[9] == 'D' && s[10] == 'E' && s[11] == 'F' && |s| == 12;
  }

  /** A turn of the loop that ends the look at a character, and the reason, if it was refused. */
  predicate Settles(t: Turn, why: Option<int>)
  {
    if why.Some? then t.Reject? && t.code == why.value else t.Next? || t.Done?
  }

  lemma StringSettles(env: Env, x: Ctx, c: byte)
    requires Willing(env) && Valid(x) && InString(x.top)
    ensures Settles(Step(env, x, c), Refusal(x, c))
  {
    hide Good, Waiting, OneOf;
    EscapeString(c);
    HexString(c);
  }

  lemma BetweenSettles(env: Env, x: Ctx, c: byte)
    requires Willing(env) && Valid(x) && !Keeps(x.top) && !x.top.Members? && !(x.top.Value? && Decimal(c))
    requires !(x.top.CommaOrEnd? && c == ']' as int)
    ensures Settles(Step(env, x, c), Refusal(x, c))
  {
    hide Good, Waiting, OneOf;
    Strings(c);
  }

  lemma AfterSettles(env: Env, x: Ctx, c: byte)
    requires Willing(env) && Valid(x) && x.top.CommaOrEnd? && !x.comment
    ensures var t := Step(env, x, c);
      if t.Redo? then AfterValue(x, c).None? && c == ']' as int && Step(env, t.x, c).Next?
      else Settles(t, AfterValue(x, c))
  {
    hide Good, Waiting;
  }

  lemma TokenSettles(env: Env, x: Ctx, c: byte)
    requires Willing(env) && Valid(x) && x.top.Tok?
    ensures Settles(Step(env, x, c), Refusal(x, c))
  {
    hide Good, Waiting;
  }

  lemma NumberSettles(env: Env, x: Ctx, c: byte)
    requires Willing(env) && Valid(x) && x.top.NumInt? && (Pending(x) ==> Digit(c))
    ensures var t := Step(env, x, c);
      if t.Redo? then t.x.top.CommaOrEnd? && !t.x.comment && t.x.below == x.below && Refusal(x, c) == AfterValue(x, c)
      else Settles(t, Refusal(x, c))
  {
    hide Good, Waiting;
  }

  lemma ExponentSettles(env: Env, x: Ctx, c: byte)
    requires Willing(env) && Valid(x) && x.top.NumExp?
    ensures var t := Step(env, x, c);
      if t.Redo? then Decimal(c) && t.x == x.(top := NumInt) else Settles(t, Refusal(x, c))
  {
    hide Good, Waiting;
  }

  lemma RedoRuns(env: Env, x: Ctx, c: byte)
    requires Valid(x) && (Pending(x) ==> Digit(c))
    ensures var t := Step(env, x, c);
      && (t.Redo? ==> Ready(t.x, [c], 0) && Run(env, x, [c], 0) == Run(env, t.x, [c], 0))
      && (t.Reject? ==> Run(env, x, [c], 0).1 == Rejected(t.code))
      && (t.Next? ==> Run(env, x, [c], 0).1 == Continue)
      && (t.Done? ==> Run(env, x, [c], 0).1.Completed?)
  {
    hide Valid, Pending, Step, Good;
    StepGood(env, x, c);
    var t := Step(env, x, c);
    if t.Next? {
      assert Run(env, t.x, [c], 1) == (t.x, Continue);
    }
  }

  /**
    * In every state, whatever the levels and whatever was parsed before, a character is refused exactly if `Refusal`
    * names a reason, and then for that reason.
    */
  lemma EveryCharacter(env: Env, x: Ctx, c: byte)
    requires Willing(env) && Valid(x) && (Pending(x) ==> Decimal(c))
    ensures var r := Run(env, x, [c], 0).1;
      match Refusal(x, c)
      case Some(code) => r == Rejected(code)
      case None => r.Continue? || r.Completed?
  {
    hide Run, Step, Refusal, AfterValue, Willing;
    RedoRuns(env, x, c);
    var t := Step(env, x, c);
    match x.top
    case Str => StringSettles(env, x, c);
    case Esc => StringSettles(env, x, c);
    case EscU(_) => StringSettles(env, x, c);
    case Tok => TokenSettles(env, x, c);
    case NumInt => NumberLook(env, x, c);
    case NumExp =>
      ExponentSettles(env, x, c);
      if t.Redo? {
        SameDigits(x, c);
        NumberLook(env, t.x, c);
      }
    case Members => MembersLook(env, x, c);
    case CommaOrEnd => AfterLook(env, x, c);
    case Value => ValueLook(env, x, c);
    case _ => BetweenSettles(env, x, c);
  }

  lemma SameDigits(x: Ctx, c: byte)
    requires x.top.NumExp? && Decimal(c)
    ensures Refusal(x, c) == Refusal(x.(top := NumInt), c)
  {
  }

  /** The verdict on one character. */
  predicate Verdict(env: Env, x: Ctx, c: byte)
    requires Ready(x, [c], 0)
  {
    var r := Run(env, x, [c], 0).1;
    match Refusal(x, c)
    case Some(code) => r == Rejected(code)
    case None => r.Continue? || r.Completed?
  }

  lemma AfterLook(env: Env, x: Ctx, c: byte)
    requires Willing(env) && Valid(x) && x.top.CommaOrEnd?
    ensures Verdict(env, x, c)
  {
    RefusalAfter(x, c);
    hide Run, Step, Refusal, AfterValue, Willing;
    RedoRuns(env, x, c);
    if x.comment {
      CommentSettles(env, x, c);
    } else {
      AfterSettles(env, x, c);
      var t := Step(env, x, c);
      if t.Redo? {
        RedoRuns(env, t.x, c);
      }
    }
  }

  lemma RefusalAfter(x: Ctx, c: byte)
    requires x.top.CommaOrEnd?
    ensures Refusal(x, c) == if x.comment then None else AfterValue(x, c)
  {
  }

  lemma CommentSettles(env: Env, x: Ctx, c: byte)
    requires Valid(x) && x.comment
    ensures Step(env, x, c).Next? && Refusal(x, c).None?
  {
    hide Good, Waiting;
  }

  lemma NumberLook(env: Env, x: Ctx, c: byte)
    requires Willing(env) && Valid(x) && x.top.NumInt? && (Pending(x) ==> Decimal(c))
    ensures Verdict(env, x, c)
  {
    hide Run, Step, Refusal, AfterValue, Willing;
    RedoRuns(env, x, c);
    NumberSettles(env, x, c);
    var t := Step(env, x, c);
    if t.Redo? {
      SameAfter(x, t.x, c);
      RefusalAfter(t.x, c);
      AfterLook(env, t.x, c);
    }
  }

  lemma SameAfter(x: Ctx, y: Ctx, c: byte)
    requires y.below == x.below
    ensures AfterValue(y, c) == AfterValue(x, c)
  {
  }

  lemma MembersLook(env: Env, x: Ctx, c: byte)
    requires Willing(env) && Valid(x) && x.top.Members?
    ensures Verdict(env, x, c)
  {
    MembersSettles(env, x, c);
    hide Run, Step, Refusal, Willing;
    RedoRuns(env, x, c);
    var t := Step(env, x, c);
    if t.Redo? {
      RedoRuns(env, t.x, c);
      BetweenSettles(env, t.x, c);
    }
  }

  lemma MembersSettles(env: Env, x: Ctx, c: byte)
    requires Valid(x) && x.top.Members?
    ensures var t := Step(env, x, c);
      if t.Redo? then t.x == x.(top := MemberPair) && Refusal(t.x, c) == Refusal(x, c) else Settles(t, Refusal(x, c))
  {
    hide Good, Waiting, OneOf;
  }

  lemma ValueLook(env: Env, x: Ctx, c: byte)
    requires Willing(env) && Valid(x) && x.top.Value?
    ensures Verdict(env, x, c)
  {
    hide Run, Step, Refusal, Willing;
    RedoRuns(env, x, c);
    if x.comment {
      CommentSettles(env, x, c);
    } else if Decimal(c) {
      DigitStarts(env, x, c);
      NumberLook(env, Step(env, x, c).x, c);
    } else {
      BetweenSettles(env, x, c);
    }
  }

  lemma DigitStarts(env: Env, x: Ctx, c: byte)
    requires Valid(x) && x.top.Value? && !x.comment && Decimal(c)
    ensures var t := Step(env, x, c);
      t.Redo? && t.x.top.NumInt? && Valid(t.x) && Refusal(x, c).None? && Refusal(t.x, c).None?
  {
    hide Good, Waiting, OneOf;
  }

  // ----- a brace that ends an array -----

  /**
    * A closing brace after an element ends the array's level as if it were an object's; a bracket may still follow,
    * and a comma then asks for another value, outside the array.
    */
  lemma BraceInArray(env: Env, x: Ctx, c: byte, more: seq<byte>) returns (y: Ctx)
    requires Willing(env) && Valid(x) && x.top.CommaOrEnd? && InArray(x) && !x.comment
    requires c == ',' as int || c == ']' as int
    ensures Valid(y) && !Pending(y) && Run(env, x, ['}' as int] + ([c] + more), 0) == Run(env, y, more, 0)
    ensures y.below == x.below[..|x.below| - 1] && y.top == if c == ',' as int then LejpStep.Value else CommaOrEnd
    ensures y.calls == x.calls + (if c == ',' as int then [ObjectEnd] else [ObjectEnd, ArrayEnded])
  {
    FirstChar(env, x, '}' as int, [c] + more);
    var mid := Step(env, x, '}' as int).x;
    assert Step(env, x, '}' as int).Next? && mid.top.ArrayEnd? && !mid.comment;
    FirstChar(env, mid, c, more);
    hide Run, Good, Waiting;
    y := Step(env, mid, c).x;
  }

  // ----- callbacks that refuse -----

  /** Whether the answer to a report ends the parse: for the end of a string only a negative one does. */
  predicate Objects(e: Event, answer: int)
  {
    match e
    case StrEnd(_) => answer < 0
    case ArrayEnded | Complete | Failed => false
    case _ => answer != 0
  }

  /** The same turn with a callback that always goes on. */
  function Mild(env: Env): Env { env.(answer := _ => 0) }

  /** Until the callback objects, it makes no difference; then the parse is refused, with the reports up to there. */
  predicate Decided(env: Env, x: Ctx, t: Turn, mild: Turn)
  {
    && x.calls <= mild.x.calls
    && if mild.x.calls == x.calls || !Objects(mild.x.calls[|x.calls|], env.answer(mild.x.calls[..|x.calls| + 1]))
       then t == mild
       else t.Reject? && t.code == -23 && t.x.calls == mild.x.calls[..|x.calls| + 1]
  }

  /** In every state, the callback ends the parse exactly if it objects to what is reported. */
  lemma CallbackDecides(env: Env, x: Ctx, c: byte)
    requires Valid(x) && (Pending(x) ==> Digit(c))
    ensures Decided(env, x, Step(env, x, c), Step(Mild(env), x, c))
  {
    hide Step, Decided;
    if InString(x.top) {
      StringDecides(env, x, c);
    } else if InNumber(x.top) || x.top.Tok? {
      NumberDecides(env, x, c);
    } else if x.top.Value? {
      ValueDecides(env, x, c);
    } else {
      OtherDecides(env, x, c);
    }
  }

  lemma StringDecides(env: Env, x: Ctx, c: byte)
    requires Valid(x) && InString(x.top)
    ensures Decided(env, x, Step(env, x, c), Step(Mild(env), x, c))
  {
    hide Good, Waiting, Shifted, EscByte, Unescaped;
    FirstReport(x.calls);
  }

  lemma NumberDecides(env: Env, x: Ctx, c: byte)
    requires Valid(x) && (InNumber(x.top) || x.top.Tok?) && (Pending(x) ==> Digit(c))
    ensures Decided(env, x, Step(env, x, c), Step(Mild(env), x, c))
  {
    hide Good, Waiting;
    FirstReport(x.calls);
  }

  lemma ValueDecides(env: Env, x: Ctx, c: byte)
    requires Valid(x) && x.top.Value?
    ensures Decided(env, x, Step(env, x, c), Step(Mild(env), x, c))
  {
    hide Good, Waiting, Open, Decided, Objects;
    Undecided(env, x, Step(env, x, c));
    if !x.comment {
      var y := x.(text := []);
      OpenDecides(env, y, CommaOrEnd, StrStart, Str);
      OpenDecides(env, x, CommaOrEnd, ObjectStart, Members);
      OpenDecides(env, x, ArrayEnd, ArrayStart, LejpStep.Value);
      SameCalls(env, x, y, Open(env, y, CommaOrEnd, StrStart, Str), Open(Mild(env), y, CommaOrEnd, StrStart, Str));
    }
  }

  lemma Undecided(env: Env, x: Ctx, t: Turn)
    ensures t.x.calls == x.calls ==> Decided(env, x, t, t)
  {
  }

  lemma SameCalls(env: Env, x: Ctx, y: Ctx, t: Turn, mild: Turn)
    requires y.calls == x.calls
    ensures Decided(env, y, t, mild) == Decided(env, x, t, mild)
  {
  }

  lemma OpenDecides(env: Env, x: Ctx, wait: Kind, e: Event, k: Kind)
    requires Valid(x) && x.top.Value? && !x.comment && (e.StrStart? || e.ObjectStart? || e.ArrayStart?)
    requires if k.Str? then wait.CommaOrEnd? && x.text == [] else (wait.CommaOrEnd? || wait.ArrayEnd?)
    requires k.Str? || k.Members? || k.Value?
    ensures Decided(env, x, Open(env, x, wait, e, k), Open(Mild(env), x, wait, e, k))
  {
    hide Good, Waiting;
    FirstReport(x.calls);
  }

  lemma OtherDecides(env: Env, x: Ctx, c: byte)
    requires Valid(x) && !Keeps(x.top) && !x.top.Value?
    ensures Decided(env, x, Step(env, x, c), Step(Mild(env), x, c))
  {
    hide Good, Waiting, OnCommaOrEnd;
    FirstReport(x.calls);
    if x.top.CommaOrEnd? && !x.comment {
      AfterDecides(env, x, c);
    }
  }

  lemma AfterDecides(env: Env, x: Ctx, c: byte)
    requires Valid(x) && x.top.CommaOrEnd? && !x.comment
    ensures Decided(env, x, OnCommaOrEnd(env, x, c), OnCommaOrEnd(Mild(env), x, c))
  {
    hide Good, Waiting;
    FirstReport(x.calls);
  }

  lemma FirstReport(calls: seq<Event>)
    ensures forall e, f :: (calls + [e] + [f])[..|calls| + 1] == calls + [e]
    ensures forall e :: (calls + [e])[..|calls| + 1] == calls + [e]
  {
  }

  /** An array for which the index stack has no room is refused. */
  lemma IndexDecides(env: Env, x: Ctx)
    requires AtValue(x) && env.answer(x.calls + [ArrayStart]) == 0 && env.indexFull(x.calls + [ArrayStart])
    ensures var t := Step(env, x, '[' as int); t.Reject? && t.code == -19
  {
    hide Good, Waiting;
  }

  // ----- numbers with an exponent -----

  /** The context inside a number: its text so far, how many digits it has, and whether it has an exponent. */
  function Inside(x: Ctx, text: seq<byte>, n: nat, exp: bool): Ctx
  {
    x.(top := NumInt, text := text, num := Num(n, false, false, false, exp))
  }

  /** A number that can be under way. */
  predicate UnderWay(text: seq<byte>, n: nat, exp: bool) { 0 < n <= 10 && n <= |text| <= n + if exp then 2 else 0 }

  predicate Decimals(ds: seq<byte>) { forall d | d in ds :: Decimal(d) }

  lemma DigitStep(env: Env, x: Ctx, text: seq<byte>, n: nat, exp: bool, d: byte, more: seq<byte>)
    requires AtValue(x) && UnderWay(text, n, exp) && n < 10 && Decimal(d)
    ensures Valid(Inside(x, text, n, exp)) && Valid(Inside(x, text + [d], n + 1, exp))
    ensures Run(env, Inside(x, text, n, exp), [d] + more, 0) == Run(env, Inside(x, text + [d], n + 1, exp), more, 0)
  {
    FirstChar(env, Inside(x, text, n, exp), d, more);
    hide Run, Good, Waiting;
    assert Step(env, Inside(x, text, n, exp), d) == Next(Inside(x, text + [d], n + 1, exp));
  }

  lemma {:induction false} DigitsOn(env: Env, x: Ctx, text: seq<byte>, n: nat, exp: bool,
                                    ds: seq<byte>, more: seq<byte>)
    requires AtValue(x) && UnderWay(text, n, exp) && Decimals(ds) && n + |ds| <= 10
    ensures Valid(Inside(x, text, n, exp)) && Valid(Inside(x, text + ds, n + |ds|, exp))
    ensures Run(env, Inside(x, text, n, exp), ds + more, 0) == Run(env, Inside(x, text + ds, n + |ds|, exp), more, 0)
    decreases |ds|
  {
    hide Run, Valid, Step;
    if ds == [] {
      assert text + ds == text && ds + more == more;
      InsideValid(x, text, n, exp);
    } else {
      assert ds + more == [ds[0]] + (ds[1..] + more) && text + ds == text + [ds[0]] + ds[1..];
      DigitStep(env, x, text, n, exp, ds[0], ds[1..] + more);
      DigitsOn(env, x, text + [ds[0]], n + 1, exp, ds[1..], more);
    }
  }

  lemma InsideValid(x: Ctx, text: seq<byte>, n: nat, exp: bool)
    requires AtValue(x) && UnderWay(text, n, exp)
    ensures Valid(Inside(x, text, n, exp)) && !Pending(Inside(x, text, n, exp))
  {
    hide Waiting;
  }

  lemma FirstDigit(env: Env, x: Ctx, d: byte, more: seq<byte>)
    requires AtValue(x) && Decimal(d)
    ensures Valid(Inside(x, [d], 1, false))
    ensures Run(env, x, [d] + more, 0) == Run(env, Inside(x, [d], 1, false), more, 0)
  {
    hide Good, Waiting;
    InsideValid(x, [d], 1, false);
    assert Step(env, x, d) == Redo(Inside(x, [], 0, false));
    assert [] + [d] == [d];
    assert Step(env, Inside(x, [], 0, false), d) == Next(Inside(x, [d], 1, false));
    FirstChar(env, x, d, more);
    hide Step;
    assert ([d] + more)[0] == d;
    RunShift(env, Inside(x, [d], 1, false), [d], more, 0);
  }

  /** The letter and the sign, or the letter and the first digit. */
  lemma ExponentStarts(env: Env, x: Ctx, ds: seq<byte>, e: byte, c: byte, more: seq<byte>)
    requires AtValue(x) && 0 < |ds| <= 10 && (e == 'e' as int || e == 'E' as int)
    requires c == '+' as int || c == '-' as int || (Decimal(c) && |ds| < 10)
    ensures var y := Inside(x, ds + [e] + [c], if Decimal(c) then |ds| + 1 else |ds|, true);
      && Valid(Inside(x, ds, |ds|, false)) && Valid(y) && !Pending(y)
      && Run(env, Inside(x, ds, |ds|, false), [e] + ([c] + more), 0) == Run(env, y, more, 0)
  {
    hide Run, Good, Waiting;
    var a := Inside(x, ds, |ds|, false);
    var b := Inside(x, ds + [e], |ds|, true).(top := NumExp);
    var y := Inside(x, ds + [e] + [c], if Decimal(c) then |ds| + 1 else |ds|, true);
    assert Step(env, a, e) == Next(b);
    FirstChar(env, a, e, [c] + more);
    FirstChar(env, b, c, more);
    if Decimal(c) {
      assert Step(env, b, c) == Redo(b.(top := NumInt));
      FirstChar(env, b.(top := NumInt), c, more);
      assert Step(env, b.(top := NumInt), c) == Next(y);
    } else {
      assert Step(env, b, c) == Next(y);
    }
  }

  lemma NumberReported(env: Env, x: Ctx, text: seq<byte>, n: nat, exp: bool, c: byte, more: seq<byte>) returns (y: Ctx)
    requires Willing(env) && AtValue(x) && UnderWay(text, n, exp) && EndsValue(c)
    ensures Told(x, y, [IntValue(text)]) && Valid(Inside(x, text, n, exp))
    ensures Run(env, Inside(x, text, n, exp), [c] + more, 0) == Run(env, y, [c] + more, 0)
  {
    InsideValid(x, text, n, exp);
    var a := Inside(x, text, n, exp);
    FirstChar(env, a, c, more);
    hide Run, Good, Waiting;
    y := Called(a, IntValue(text)).(top := CommaOrEnd);
    assert Step(env, a, c) == Redo(y);
  }

  /**
    * A number with an exponent, of ten digits at most in all, is reported with its whole text, as an integer; the sign
    * needs no digit behind it.
    */
  lemma ExponentNumber(env: Env, x: Ctx, ds: seq<byte>, e: byte, c: byte, fs: seq<byte>, end: byte, more: seq<byte>)
    returns (y: Ctx)
    requires Willing(env) && AtValue(x) && ds != [] && Decimals(ds) && Decimals(fs) && EndsValue(end)
    requires (e == 'e' as int || e == 'E' as int) && (c == '+' as int || c == '-' as int || Decimal(c))
    requires |ds| + |fs| + (if Decimal(c) then 1 else 0) <= 10
    ensures Told(x, y, [IntValue(ds + [e] + [c] + fs)])
    ensures Run(env, x, ds + ([e] + ([c] + (fs + ([end] + more)))), 0) == Run(env, y, [end] + more, 0)
  {
    hide Run, Step, Valid, Willing, EndsValue, Told;
    var tail := [e] + ([c] + (fs + ([end] + more)));
    assert ds + tail == [ds[0]] + (ds[1..] + tail) && [ds[0]] + ds[1..] == ds;
    FirstDigit(env, x, ds[0], ds[1..] + tail);
    DigitsOn(env, x, [ds[0]], 1, false, ds[1..], tail);
    ExponentStarts(env, x, ds, e, c, fs + ([end] + more));
    var n := if Decimal(c) then |ds| + 1 else |ds|;
    DigitsOn(env, x, ds + [e] + [c], n, true, fs, [end] + more);
    y := NumberReported(env, x, ds + [e] + [c] + fs, n + |fs|, true, end, more);
  }
}
