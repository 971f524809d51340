/**
  * The stream JSON parser (lejp_parse) as a step machine: its states, the stack of levels, the characters it looks
  * at again, and what it reports to the callback. Paths and the array index stack are left out.
  */
module LejpStep {
  import opened Bytes

  const MAX_DEPTH := 12
  const CHUNK := 255

  datatype Kind =
    | Idle | Members | MemberPair | Str | Esc | EscU(n: nat) | Delim | Value
    | NumInt | NumExp | Tok | CommaOrEnd | ArrayEnd

  datatype Event =
    | ObjectStart | ObjectEnd | ArrayStart | ArrayEnded | PairName
    | StrStart | StrChunk(text: seq<byte>) | StrEnd(text: seq<byte>)
    | IntValue(text: seq<byte>) | FloatValue(text: seq<byte>)
    | TrueValue | FalseValue | NullValue | Complete | Failed

  /** The callback answers by what it was told so far; whether the index stack is full is not modelled further. */
  datatype Env = Env(answer: seq<Event> -> int, indexFull: seq<Event> -> bool)

  datatype Num = Num(dcount: nat, minus: bool, point: bool, postPoint: bool, exp: bool)

  /**
    * `top` is the state of the top level and `below` are those of the levels under it; `comment` is the comment flag,
    * which only the top level can have; `text` is the used part of the buffer.
    */
  datatype Ctx = Ctx(below: seq<Kind>, top: Kind, comment: bool, text: seq<byte>, num: Num, uni: nat, calls: seq<Event>)

  /** How a turn of the loop ends; of a context that was rejected only the reports so far are of use. */
  datatype Turn = Next(x: Ctx) | Redo(x: Ctx) | Reject(x: Ctx, code: int) | Done(x: Ctx)

  const IDLE_NO_BRACE := -2
  const MEMBERS_NO_CLOSE := -3
  const MP_NO_OPEN_QUOTE := -4
  const MP_STRING_UNDERRUN := -5
  const MP_ILLEGAL_CTRL := -6
  const ILLEGAL_ESC := -7
  const ILLEGAL_HEX := -8
  const MISSING_COLON := -9
  const BAD_VALUE_START := -10
  const NUM_INT_NO_FRAC := -11
  const NUM_FORMAT := -12
  const BAD_EXP := -13
  const TOK_UNKNOWN := -14
  const C_OR_E_UNDERF := -15
  const C_OR_E_NOTARRAY := -16
  const ARRAY_END_MISSING := -17
  const STACK_OVERFLOW := -18
  const DELIM_ISTACK := -19
  const NUM_TOO_LONG := -20
  const C_OR_E_NEITHER := -21
  const CALLBACK := -23

  // ----- what holds of a context -----

  /** The states in which white space is kept. */
  predicate Keeps(k: Kind) { InString(k) || InNumber(k) || k.Tok? }

  predicate InString(k: Kind) { k.Str? || k.Esc? || (k.EscU? && 1 <= k.n <= 4) }

  predicate InNumber(k: Kind) { k.NumInt? || k.NumExp? }

  predicate Digit(c: byte) { '0' as int <= c <= '9' as int }

  /** "rue alse ull ", in which `uni` is the position. */
  function Token(uni: nat): byte
  {
    if uni == 0 then 'r' as int else if uni == 1 then 'u' as int else if uni == 2 then 'e' as int
    else if uni == 4 then 'a' as int else if uni == 5 then 'l' as int else if uni == 6 then 's' as int
    else if uni == 7 then 'e' as int else if uni == 9 then 'u' as int else if uni == 10 then 'l' as int
    else if uni == 11 then 'l' as int else if uni <= 12 then ' ' as int else 0
  }

  /** A number that was begun is digits, at most one exponent sign among them, and always fits the buffer. */
  predicate ValidNumber(k: Kind, num: Num, len: nat)
  {
    && !num.minus && !num.point && num.dcount <= 10
    && (k.NumExp? ==> num.exp && num.dcount > 0)
    && num.dcount <= len <= num.dcount + (if !num.exp then 0 else if k.NumExp? then 1 else 2)
    && (num.dcount == 0 ==> !num.exp)
  }

  /**
    * Every level below the top waits for the level above it: for the name of a pair, for a value or for the
    * elements of an array. Only a string can stand above a level that waits for a name.
    */
  predicate Waiting(below: seq<Kind>, named: bool)
  {
    && (forall k | 0 <= k < |below| - 1 :: below[k].CommaOrEnd? || below[k].ArrayEnd?)
    && (|below| > 0 ==> var last := below[|below| - 1];
          last.CommaOrEnd? || if named then last.Delim? else last.ArrayEnd?)
  }

  predicate Valid(x: Ctx)
  {
    && |x.below| < MAX_DEPTH
    && Waiting(x.below, InString(x.top))
    && (x.top.EscU? ==> InString(x.top))
    && (InString(x.top) ==> |x.below| > 0 && (InName(x) || |x.text| < CHUNK - 1))
    && (InNumber(x.top) ==> ValidNumber(x.top, x.num, |x.text|))
    && (x.top.Tok? ==> x.uni < 12 && Token(x.uni) != ' ' as int)
    && (x.comment ==> !Keeps(x.top))
  }

  /** The string at the top is the name of a pair. */
  predicate InName(x: Ctx) { |x.below| > 0 && x.below[|x.below| - 1].Delim? }

  /** A number was begun, and its first digit is the character to look at again. */
  predicate Pending(x: Ctx) { x.top.NumInt? && x.num.dcount == 0 }

  /** How often a character can still be looked at again. */
  function Rank(k: Kind): nat
  {
    match k
    case NumExp => 3
    case Value => 3
    case NumInt => 2
    case CommaOrEnd => 1
    case Members => 1
    case _ => 0
  }

  /** The reasons a parse can be rejected for. */
  predicate IsCode(code: int)
  {
    && CALLBACK <= code <= IDLE_NO_BRACE && code != -22
    && code != MP_STRING_UNDERRUN && code != NUM_INT_NO_FRAC && code != NUM_TOO_LONG
  }

  /** What a turn of the loop keeps: the levels, and for a character to look at again a smaller rank. */
  predicate Good(x: Ctx, c: byte, t: Turn)
    requires Valid(x)
  {
    match t
    case Next(y) => Valid(y) && !Pending(y)
    case Redo(y) => Valid(y) && Rank(y.top) < Rank(x.top) && (Pending(y) ==> Digit(c))
    case Reject(_, code) => IsCode(code)
    case Done(y) => Valid(y) && y.below == []
  }

  // ----- the parts of a turn -----

  function Called(x: Ctx, e: Event): Ctx { x.(calls := x.calls + [e]) }

  predicate Refused(env: Env, x: Ctx) { env.answer(x.calls) != 0 }

  lemma Deeper(below: seq<Kind>, wait: Kind)
    requires Waiting(below, false)
    ensures wait.CommaOrEnd? ==> Waiting(below + [wait], true) && Waiting(below + [wait], false)
    ensures wait.ArrayEnd? ==> Waiting(below + [wait], false)
    ensures wait.Delim? ==> Waiting(below + [wait], true)
  {
  }

  /** add_stack_level */
  function Push(x: Ctx, k: Kind): Turn
  {
    if |x.below| + 1 == MAX_DEPTH then Reject(x, STACK_OVERFLOW)
    else
      Next(x.(below := x.below + [x.top], top := k))
  }

  function Pop(x: Ctx): (y: Ctx)
    requires |x.below| > 0
    ensures Waiting(x.below, InString(x.top)) ==> Waiting(y.below, false)
  {
    var n := |x.below| - 1;
    x.(below := x.below[..n], top := x.below[n])
  }

  /** emit_string_char; characters of a name go to the path instead. */
  function Emit(env: Env, x: Ctx, c: byte): Turn
  {
    if InName(x) then Next(x)
    else
      var y := x.(text := x.text + [c]);
      if |y.text| != CHUNK - 1 then Next(y)
      else
        var z := Called(y, StrChunk(y.text));
        if Refused(env, z) then Reject(z, CALLBACK) else Next(z.(text := []))
  }

  /** append_npos */
  function Append(x: Ctx, c: byte): Turn
  {
    if |x.text| >= CHUNK then Reject(x, NUM_TOO_LONG) else Next(x.(text := x.text + [c]))
  }

  function OnIdle(env: Env, x: Ctx, c: byte): (t: Turn)
    requires Valid(x) && x.top.Idle? && !x.comment
    ensures Good(x, c, t)
  {
    if c != '{' as int then Reject(x, IDLE_NO_BRACE)
    else
      var y := Called(x, ObjectStart);
      if Refused(env, y) then Reject(y, CALLBACK) else Next(y.(top := Members))
  }

  function OnMembers(x: Ctx, c: byte): (t: Turn)
    requires Valid(x) && x.top.Members? && !x.comment
    ensures Good(x, c, t)
  {
    if c == '}' as int then Reject(x.(top := Idle), MEMBERS_NO_CLOSE) else Redo(x.(top := MemberPair))
  }

  function OnMemberPair(x: Ctx, c: byte): (t: Turn)
    requires Valid(x) && x.top.MemberPair? && !x.comment
    ensures Good(x, c, t)
  {
    if c != '"' as int then Reject(x, MP_NO_OPEN_QUOTE) else Push(x.(top := Delim), Str)
  }

  function OnStr(env: Env, x: Ctx, c: byte): (t: Turn)
    requires Valid(x) && x.top.Str?
    ensures Good(x, c, t)
  {
    if c == '"' as int then
      if x.below == [] then Reject(x, MP_STRING_UNDERRUN)
      else
        var y := if InName(x) then x else Called(x, StrEnd(x.text));
        if !InName(x) && env.answer(y.calls) < 0 then Reject(y, CALLBACK) else Next(Pop(y))
    else if c == '\\' as int then Next(x.(top := Esc))
    else if c < ' ' as int then Reject(x, MP_ILLEGAL_CTRL)
    else Emit(env, x, c)
  }

  /** The short escapes; the terminator of the table of escapes counts as one of them. */
  function Unescaped(c: byte): Option<byte>
  {
    if c == '"' as int || c == '\\' as int || c == '/' as int || c == 0 then Some(c)
    else if c == 'b' as int then Some(8) else if c == 'f' as int then Some(12)
    else if c == 'n' as int then Some(10) else if c == 'r' as int then Some(13)
    else if c == 't' as int then Some(9) else None
  }

  function OnEsc(env: Env, x: Ctx, c: byte): (t: Turn)
    requires Valid(x) && x.top.Esc?
    ensures Good(x, c, t)
  {
    if c == 'u' as int then Next(x.(top := EscU(1), uni := 0))
    else if Unescaped(c).None? then Reject(x, ILLEGAL_ESC)
    else Emit(env, x.(top := Str), Unescaped(c).value)
  }

  /** The hex digit goes into `uni`; a letter replaces what was there. */
  function Shifted(uni: nat, c: byte): Option<nat>
  {
    if Digit(c) then Some(uni * 16 % 65536 + (c - '0' as int))
    else if 'a' as int <= c <= 'f' as int then Some(c - 'a' as int + 10)
    else if 'A' as int <= c <= 'F' as int then Some(c - 'A' as int + 10)
    else None
  }

  /** The byte emitted at the `n`th digit of a \u escape, if any. */
  function EscByte(n: nat, uni: nat): Option<byte>
  {
    if n == 2 then if uni < 0x08 then None else Some(0xe0 + uni / 16 % 16)
    else if n == 3 then
      if uni >= 0x80 then Some(0x80 + uni / 4 % 64) else if uni < 0x08 then None else Some(0xc0 + uni / 4)
    else if n == 4 then if uni >= 0x80 then Some(0x80 + uni % 64) else Some(uni)
    else None
  }

  function OnEscU(env: Env, x: Ctx, c: byte): (t: Turn)
    requires Valid(x) && x.top.EscU?
    ensures Good(x, c, t)
  {
    var n := x.top.n;
    var u := Shifted(x.uni, c);
    if u.None? then Reject(x.(uni := x.uni * 16 % 65536), ILLEGAL_HEX)
    else
      var y := x.(top := if n == 4 then Str else EscU(n + 1), uni := u.value);
      var b := EscByte(n, u.value);
      if b.None? then Next(y) else Emit(env, y, b.value)
  }

  function OnDelim(env: Env, x: Ctx, c: byte): (t: Turn)
    requires Valid(x) && x.top.Delim? && !x.comment
    ensures Good(x, c, t)
  {
    if c != ':' as int then Reject(x, MISSING_COLON)
    else
      var y := Called(x.(top := Value), PairName);
      if Refused(env, y) then Reject(y, CALLBACK) else Next(y)
  }

  const FRESH := Num(0, false, false, false, false)

  /** A value that opens a level: the top waits in state `wait` for the new level. */
  function Open(env: Env, x: Ctx, wait: Kind, e: Event, k: Kind): (t: Turn)
    requires Valid(x) && x.top.Value? && !x.comment
    requires if k.Str? then wait.CommaOrEnd? && x.text == [] else (wait.CommaOrEnd? || wait.ArrayEnd?)
    requires k.Str? || k.Members? || k.Value?
    ensures (t.Next? || t.Reject?) && Good(x, 0, t)
  {
    var y := Called(x.(top := wait), e);
    if Refused(env, y) then Reject(y, CALLBACK)
    else if e.ArrayStart? && env.indexFull(y.calls) then Reject(y, DELIM_ISTACK)
    else
      Deeper(x.below, wait);
      Push(y, k)
  }

  function OnValue(env: Env, x: Ctx, c: byte): (t: Turn)
    requires Valid(x) && x.top.Value? && !x.comment
    ensures Good(x, c, t)
  {
    if Digit(c) then Redo(x.(top := NumInt, text := [], num := FRESH))
    else if c == '"' as int then Open(env, x.(text := []), CommaOrEnd, StrStart, Str)
    else if c == '{' as int then Open(env, x, CommaOrEnd, ObjectStart, Members)
    else if c == '[' as int then Open(env, x, ArrayEnd, ArrayStart, Value)
    else if c == 't' as int then Next(x.(top := Tok, uni := 0))
    else if c == 'f' as int then Next(x.(top := Tok, uni := 4))
    else if c == 'n' as int then Next(x.(top := Tok, uni := 9))
    else Reject(x, BAD_VALUE_START)
  }

  /** The character after a number: the number is reported. */
  function NumberEnds(env: Env, x: Ctx): Turn
  {
    if x.num.dcount == 0 then Reject(x, NUM_FORMAT)
    else
      var y := Called(x, if x.num.point then FloatValue(x.text) else IntValue(x.text));
      if Refused(env, y) then Reject(y, CALLBACK) else Redo(y.(top := CommaOrEnd))
  }

  function OnNumInt(env: Env, x: Ctx, c: byte): Turn
  {
    var m := x.num;
    if x.text == [] && c == '-' as int then Append(x.(num := m.(minus := true)), c)
    else if m.dcount < 10 && Digit(c) then
      Append(x.(num := m.(postPoint := m.postPoint || m.point, dcount := m.dcount + 1)), c)
    else if c == '.' as int then
      if m.dcount > 0 || m.point then Reject(x, NUM_FORMAT) else Append(x.(num := m.(point := true)), c)
    else if m.point && !m.postPoint then Reject(x, NUM_INT_NO_FRAC)
    else if c == 'e' as int || c == 'E' as int then
      if m.exp then Reject(x, NUM_FORMAT) else Append(x.(top := NumExp, num := m.(exp := true)), c)
    else NumberEnds(env, x)
  }

  lemma NumIntGood(env: Env, x: Ctx, c: byte)
    requires Valid(x) && x.top.NumInt? && (Pending(x) ==> Digit(c))
    ensures Good(x, c, OnNumInt(env, x, c))
  {
  }

  function OnNumExp(x: Ctx, c: byte): (t: Turn)
    requires Valid(x) && x.top.NumExp?
    ensures Good(x, c, t)
  {
    var y := x.(top := NumInt);
    if Digit(c) then Redo(y)
    else if c == '+' as int || c == '-' as int then Append(y, c)
    else Reject(y, BAD_EXP)
  }

  function OnTok(env: Env, x: Ctx, c: byte): (t: Turn)
    requires Valid(x) && x.top.Tok?
    ensures Good(x, c, t)
  {
    if c != Token(x.uni) then Reject(x, TOK_UNKNOWN)
    else
      var y := x.(uni := x.uni + 1);
      if Token(y.uni) != ' ' as int then Next(y)
      else
        var z := Called(y, if y.uni == 3 then TrueValue else if y.uni == 8 then FalseValue else NullValue);
        if Refused(env, z) then Reject(z, CALLBACK) else Next(z.(top := CommaOrEnd))
  }

  predicate InArray(x: Ctx) { |x.below| > 0 && x.below[|x.below| - 1].ArrayEnd? }

  function OnCommaOrEnd(env: Env, x: Ctx, c: byte): (t: Turn)
    requires Valid(x) && x.top.CommaOrEnd? && !x.comment
    ensures Good(x, c, t)
  {
    if c == ',' as int then Next(x.(top := if InArray(x) then Value else MemberPair))
    else if c == ']' as int then
      if x.below == [] then Reject(x, C_OR_E_UNDERF)
      else if !InArray(x) then Reject(x, C_OR_E_NOTARRAY)
      else Redo(Pop(x))
    else if c == '}' as int then
      var y := Called(if x.below == [] then x else Pop(x), ObjectEnd);
      if Refused(env, y) then Reject(y, CALLBACK)
      else if x.below == [] then Done(Called(y, Complete))
      else Next(y)
    else Reject(x, C_OR_E_NEITHER)
  }

  function OnArrayEnd(x: Ctx, c: byte): (t: Turn)
    requires Valid(x) && x.top.ArrayEnd? && !x.comment
    ensures Good(x, c, t)
  {
    if c == ',' as int then Next(x.(top := Value))
    else if c != ']' as int then Reject(x, ARRAY_END_MISSING)
    else Next(Called(x.(top := CommaOrEnd), ArrayEnded))
  }

  function Handle(env: Env, x: Ctx, c: byte): (t: Turn)
    requires Valid(x) && !x.comment && (Pending(x) ==> Digit(c))
    ensures Good(x, c, t)
  {
    match x.top
    case Idle => OnIdle(env, x, c)
    case Members => OnMembers(x, c)
    case MemberPair => OnMemberPair(x, c)
    case Str => OnStr(env, x, c)
    case Esc => OnEsc(env, x, c)
    case EscU(_) => OnEscU(env, x, c)
    case Delim => OnDelim(env, x, c)
    case Value => OnValue(env, x, c)
    case NumInt =>
      NumIntGood(env, x, c);
      OnNumInt(env, x, c)
    case NumExp => OnNumExp(x, c)
    case Tok => OnTok(env, x, c)
    case CommaOrEnd => OnCommaOrEnd(env, x, c)
    case ArrayEnd => OnArrayEnd(x, c)
  }

  /** Inside a number there is room in the buffer for one character and for the terminator. */
  lemma NumberFits(env: Env, x: Ctx, c: byte)
    requires Valid(x) && x.top.NumInt? && (Pending(x) ==> Digit(c))
    ensures |x.text| < CHUNK - 1 && Handle(env, x, c) == OnNumInt(env, x, c)
  {
    hide OnNumInt, Good;
  }

  predicate IsSpace(c: byte) { c == ' ' as int || c == 9 || c == 10 || c == 13 || c == '#' as int }

  /** One turn of the loop: white space and comments are skipped in the states that do not keep them. */
  function Step(env: Env, x: Ctx, c: byte): (t: Turn)
    requires Valid(x) && (Pending(x) ==> Digit(c))
    ensures Good(x, c, t)
  {
    if IsSpace(c) && !Keeps(x.top) then
      Next(x.(comment := if c == 10 then false else c == '#' as int || x.comment))
    else if x.comment then Next(x)
    else Handle(env, x, c)
  }
}
