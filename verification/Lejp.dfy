/** The stream JSON parser as it is written: one loop over a context that it changes in place. */
module Lejp {
  import opened Bytes
  import opened LejpStep
  import opened LejpRun

  /** How a turn of the loop ends. */
  datatype Move = Continues | Again | Finished | Fails(code: int)

  class Parser {
    const st: array<Kind>
    const buf: array<byte>
    var sp: nat
    var npos: nat
    var comment: bool
    var num: Num
    var uni: nat
    var calls: seq<Event>

    ghost predicate Shape()
      reads this
    {
      st.Length == MAX_DEPTH && buf.Length == CHUNK && sp < MAX_DEPTH && npos <= CHUNK
    }

    ghost function View(): Ctx
      requires Shape()
      reads this, st, buf
    {
      Ctx(st[..sp], st[sp], comment, buf[..npos], num, uni, calls)
    }

    /** The turn that the step machine makes is the one that was made in place. */
    ghost predicate Made(t: Turn, m: Move)
      reads this, st, buf
    {
      match t
      case Next(x) => m == Continues && Shape() && View() == x
      case Redo(x) => m == Again && Shape() && View() == x
      case Done(x) => m == Finished && Shape() && View() == x
      case Reject(x, code) => m == Fails(code) && calls == x.calls
    }

    /** lejp_construct; fields that it leaves unset start at 0. */
    constructor ()
      ensures Shape() && fresh(st) && fresh(buf)
      ensures View() == Ctx([], Idle, false, [], FRESH, 0, []) && Valid(View())
    {
      st := new Kind[MAX_DEPTH](_ => Idle);
      buf := new byte[CHUNK];
      sp, npos, comment, num, uni, calls := 0, 0, false, FRESH, 0, [];
    }

    // ----- the parts of a turn -----

    method SetTop(k: Kind)
      requires Shape()
      modifies st
      ensures Shape() && View() == old(View()).(top := k)
    {
      st[sp] := k;
    }

    method Call(env: Env, e: Event) returns (ret: int)
      requires Shape()
      modifies this`calls
      ensures Shape() && View() == Called(old(View()), e) && ret == env.answer(View().calls)
    {
      calls := calls + [e];
      ret := env.answer(calls);
    }

    method AddLevel(k: Kind) returns (m: Move)
      requires Shape()
      modifies this`sp, st
      ensures Made(Push(old(View()), k), m)
    {
      sp := sp + 1;
      if sp == st.Length {
        return Fails(STACK_OVERFLOW);
      }
      st[sp] := k;
      return Continues;
    }

    method DropLevel()
      requires Shape() && sp > 0
      modifies this`sp
      ensures Shape() && View() == Pop(old(View()))
    {
      sp := sp - 1;
    }

    method AppendChar(c: byte) returns (m: Move)
      requires Shape()
      modifies this`npos, buf
      ensures Made(Append(old(View()), c), m)
    {
      if npos >= buf.Length {
        return Fails(NUM_TOO_LONG);
      }
      buf[npos] := c;
      npos := npos + 1;
      return Continues;
    }

    method EmitChar(env: Env, c: byte) returns (m: Move)
      requires Shape() && (InName(View()) || npos < CHUNK - 1)
      modifies this`npos, this`calls, buf
      ensures Made(Emit(env, old(View()), c), m)
    {
      if sp == 0 || st[sp - 1] != Delim {
        buf[npos] := c;
        npos := npos + 1;
        assert buf[..npos] == old(buf[..npos]) + [c];
        if npos == buf.Length - 1 {
          var ret := Call(env, StrChunk(buf[..npos]));
          if ret != 0 {
            return Fails(CALLBACK);
          }
          npos := 0;
        }
      }
      return Continues;
    }

    // ----- the states -----

    method Structure(env: Env, c: byte) returns (m: Move)
      requires Shape() && Valid(View()) && !comment
      requires st[sp].Idle? || st[sp].Members? || st[sp].MemberPair? || st[sp].Delim?
      modifies this, st, buf
      ensures Made(Handle(env, old(View()), c), m)
    {
      if st[sp].Idle? {
        if c != '{' as int {
          return Fails(IDLE_NO_BRACE);
        }
        var ret := Call(env, ObjectStart);
        if ret != 0 {
          return Fails(CALLBACK);
        }
        SetTop(Members);
        return Continues;
      } else if st[sp].Members? {
        if c == '}' as int {
          SetTop(Idle);
          return Fails(MEMBERS_NO_CLOSE);
        }
        SetTop(MemberPair);
        return Again;
      } else if st[sp].MemberPair? {
        if c != '"' as int {
          return Fails(MP_NO_OPEN_QUOTE);
        }
        SetTop(Delim);
        m := AddLevel(Str);
      } else {
        if c != ':' as int {
          return Fails(MISSING_COLON);
        }
        SetTop(Value);
        var ret := Call(env, PairName);
        return if ret != 0 then Fails(CALLBACK) else Continues;
      }
    }

    method InsideString(env: Env, c: byte) returns (m: Move)
      requires Shape() && Valid(View()) && st[sp].Str?
      modifies this, st, buf
      ensures Made(Handle(env, old(View()), c), m)
    {
      if c == '"' as int {
        if sp == 0 {
          return Fails(MP_STRING_UNDERRUN);
        }
        if st[sp - 1] != Delim {
          buf[npos] := 0;
          var ret := Call(env, StrEnd(buf[..npos]));
          if ret < 0 {
            return Fails(CALLBACK);
          }
        }
        DropLevel();
        return Continues;
      }
      if c == '\\' as int {
        SetTop(Esc);
        return Continues;
      }
      if c < ' ' as int {
        return Fails(MP_ILLEGAL_CTRL);
      }
      m := EmitChar(env, c);
    }

    method Escape(env: Env, c: byte) returns (m: Move)
      requires Shape() && Valid(View()) && st[sp].Esc?
      modifies this, st, buf
      ensures Made(Handle(env, old(View()), c), m)
    {
      hide Waiting, Good, Unescaped;
      if c == 'u' as int {
        SetTop(EscU(1));
        uni := 0;
        return Continues;
      }
      var known, b := LookUp(c);
      if !known {
        return Fails(ILLEGAL_ESC);
      }
      SetTop(Str);
      m := EmitChar(env, b);
    }

    /** The search of the escape tables, whose last entry is the terminator. */
    method LookUp(c: byte) returns (known: bool, b: byte)
      ensures Unescaped(c) == if known then Some(b) else None
    {
      var from := ['"', '\\', '/', 'b', 'f', 'n', 'r', 't', '\0'];
      var to: seq<byte> := ['"' as int, '\\' as int, '/' as int, 8, 12, 10, 13, 9, 0];
      var n := 0;
      while n < |from|
        invariant 0 <= n <= |from| && forall k | 0 <= k < n :: c != from[k] as int
      {
        if c == from[n] as int {
          return true, to[n];
        }
        n := n + 1;
      }
      assert c != from[0] as int && c != from[1] as int && c != from[2] as int && c != from[3] as int;
      assert c != from[4] as int && c != from[5] as int && c != from[6] as int && c != from[7] as int;
      assert c != from[8] as int;
      return false, 0;
    }

    method HexEscape(env: Env, c: byte) returns (m: Move)
      requires Shape() && Valid(View()) && st[sp].EscU?
      modifies this, st, buf
      ensures Made(Handle(env, old(View()), c), m)
    {
      hide Waiting, Good, Shifted, EscByte;
      var n := st[sp].n;
      var ok := TakeDigit(c);
      if !ok {
        return Fails(ILLEGAL_HEX);
      }
      SetTop(if n == 4 then Str else EscU(n + 1));
      var emits, b := HexByte(n);
      if !emits {
        return Continues;
      }
      m := EmitChar(env, b);
    }

    /** The digit goes into `uni`; a letter replaces what was there. */
    method TakeDigit(c: byte) returns (ok: bool)
      modifies this`uni
      ensures ok == Shifted(old(uni), c).Some?
      ensures uni == Shifted(old(uni), c).GetOr(old(uni) * 16 % 65536)
    {
      uni := uni * 16 % 65536;
      if '0' as int <= c <= '9' as int {
        uni := uni + (c - '0' as int);
      } else if 'a' as int <= c <= 'f' as int {
        uni := c - 'a' as int + 10;
      } else if 'A' as int <= c <= 'F' as int {
        uni := c - 'A' as int + 10;
      } else {
        return false;
      }
      return true;
    }

    /** The switch over the digits. */
    method HexByte(n: nat) returns (emits: bool, b: byte)
      ensures EscByte(n, uni) == if emits then Some(b) else None
    {
      if n == 2 {
        if uni < 0x08 {
          return false, 0;
        }
        return true, 0xe0 + uni / 16 % 16;
      } else if n == 3 {
        if uni >= 0x80 {
          return true, 0x80 + uni / 4 % 64;
        }
        if uni < 0x08 {
          return false, 0;
        }
        return true, 0xc0 + uni / 4;
      } else if n == 4 {
        if uni >= 0x80 {
          return true, 0x80 + uni % 64;
        }
        return true, uni;
      }
      return false, 0;
    }

    method OpenLevel(env: Env, wait: Kind, e: Event, k: Kind) returns (m: Move)
      requires Shape() && Valid(View()) && st[sp].Value? && !comment
      requires if k.Str? then wait.CommaOrEnd? && npos == 0 else (wait.CommaOrEnd? || wait.ArrayEnd?)
      requires k.Str? || k.Members? || k.Value?
      modifies this, st, buf
      ensures Made(Open(env, old(View()), wait, e, k), m)
    {
      SetTop(wait);
      var ret := Call(env, e);
      if ret != 0 {
        return Fails(CALLBACK);
      }
      if e.ArrayStart? && env.indexFull(calls) {
        return Fails(DELIM_ISTACK);
      }
      m := AddLevel(k);
    }

    method BeginValue(env: Env, c: byte) returns (m: Move)
      requires Shape() && Valid(View()) && st[sp].Value? && !comment
      modifies this, st, buf
      ensures Made(Handle(env, old(View()), c), m)
    {
      if Digit(c) {
        npos, num := 0, FRESH;
        SetTop(NumInt);
        return Again;
      } else if c == '"' as int {
        npos := 0;
        m := OpenLevel(env, CommaOrEnd, StrStart, Str);
      } else if c == '{' as int {
        m := OpenLevel(env, CommaOrEnd, ObjectStart, Members);
      } else if c == '[' as int {
        m := OpenLevel(env, ArrayEnd, ArrayStart, Value);
      } else if c == 't' as int || c == 'f' as int || c == 'n' as int {
        uni := if c == 't' as int then 0 else if c == 'f' as int then 4 else 9;
        SetTop(Tok);
        return Continues;
      } else {
        return Fails(BAD_VALUE_START);
      }
    }

    method Number(env: Env, c: byte) returns (m: Move)
      requires Shape() && npos < CHUNK
      modifies this, st, buf
      ensures Made(OnNumInt(env, old(View()), c), m)
    {
      if npos == 0 && c == '-' as int {
        num := num.(minus := true);
        m := AppendChar(c);
      } else if num.dcount < 10 && Digit(c) {
        num := num.(postPoint := num.postPoint || num.point, dcount := num.dcount + 1);
        m := AppendChar(c);
      } else if c == '.' as int {
        if num.dcount > 0 || num.point {
          return Fails(NUM_FORMAT);
        }
        num := num.(point := true);
        m := AppendChar(c);
      } else if num.point && !num.postPoint {
        return Fails(NUM_INT_NO_FRAC);
      } else if c == 'e' as int || c == 'E' as int {
        if num.exp {
          return Fails(NUM_FORMAT);
        }
        num := num.(exp := true);
        SetTop(NumExp);
        m := AppendChar(c);
      } else if num.dcount == 0 {
        return Fails(NUM_FORMAT);
      } else {
        m := EndNumber(env);
      }
    }

    /** The end of a number. */
    method EndNumber(env: Env) returns (m: Move)
      requires Shape() && npos < CHUNK && num.dcount > 0
      modifies this, st, buf
      ensures Made(NumberEnds(env, old(View())), m)
    {
      buf[npos] := 0;
      var ret := Call(env, if num.point then FloatValue(buf[..npos]) else IntValue(buf[..npos]));
      if ret != 0 {
        return Fails(CALLBACK);
      }
      SetTop(CommaOrEnd);
      return Again;
    }

    method Exponent(env: Env, c: byte) returns (m: Move)
      requires Shape() && Valid(View()) && st[sp].NumExp?
      modifies this, st, buf
      ensures Made(Handle(env, old(View()), c), m)
    {
      SetTop(NumInt);
      if Digit(c) {
        return Again;
      }
      if c == '+' as int || c == '-' as int {
        m := AppendChar(c);
      } else {
        return Fails(BAD_EXP);
      }
    }

    method TokenChar(env: Env, c: byte) returns (m: Move)
      requires Shape() && Valid(View()) && st[sp].Tok?
      modifies this, st
      ensures Made(Handle(env, old(View()), c), m)
    {
      if c != Token(uni) {
        return Fails(TOK_UNKNOWN);
      }
      uni := uni + 1;
      if Token(uni) != ' ' as int {
        return Continues;
      }
      var ret := Call(env, if uni == 3 then TrueValue else if uni == 8 then FalseValue else NullValue);
      if ret != 0 {
        return Fails(CALLBACK);
      }
      SetTop(CommaOrEnd);
      return Continues;
    }

    method AfterValue(env: Env, c: byte) returns (m: Move)
      requires Shape() && Valid(View()) && st[sp].CommaOrEnd? && !comment
      modifies this, st
      ensures Made(Handle(env, old(View()), c), m)
    {
      if c == ',' as int {
        SetTop(if sp > 0 && st[sp - 1].ArrayEnd? then Value else MemberPair);
        return Continues;
      }
      if c == ']' as int {
        if sp == 0 {
          return Fails(C_OR_E_UNDERF);
        }
        DropLevel();
        return if st[sp] != ArrayEnd then Fails(C_OR_E_NOTARRAY) else Again;
      }
      if c == '}' as int {
        if sp == 0 {
          var ret := Call(env, ObjectEnd);
          if ret != 0 {
            return Fails(CALLBACK);
          }
          var _ := Call(env, Complete);
          return Finished;
        }
        DropLevel();
        var ret := Call(env, ObjectEnd);
        return if ret != 0 then Fails(CALLBACK) else Continues;
      }
      return Fails(C_OR_E_NEITHER);
    }

    method AfterArray(env: Env, c: byte) returns (m: Move)
      requires Shape() && Valid(View()) && st[sp].ArrayEnd? && !comment
      modifies this, st
      ensures Made(Handle(env, old(View()), c), m)
    {
      if c == ',' as int {
        SetTop(Value);
        return Continues;
      }
      if c != ']' as int {
        return Fails(ARRAY_END_MISSING);
      }
      SetTop(CommaOrEnd);
      var _ := Call(env, ArrayEnded);
      return Continues;
    }

    // ----- the loop -----

    /** The switch over the state of the top level. */
    method Dispatch(env: Env, c: byte) returns (m: Move)
      requires Shape() && Valid(View()) && !comment && (Pending(View()) ==> Digit(c))
      modifies this, st, buf
      ensures Made(Handle(env, old(View()), c), m)
    {
      hide Valid, Handle;
      match st[sp]
      case Str => m := InsideString(env, c);
      case Esc => m := Escape(env, c);
      case EscU(_) => m := HexEscape(env, c);
      case Value => m := BeginValue(env, c);
      case NumInt =>
        NumberFits(env, View(), c);
        m := Number(env, c);
      case NumExp => m := Exponent(env, c);
      case Tok => m := TokenChar(env, c);
      case CommaOrEnd => m := AfterValue(env, c);
      case ArrayEnd => m := AfterArray(env, c);
      case _ => m := Structure(env, c);
    }

    method Turn(env: Env, c: byte) returns (m: Move)
      requires Shape() && Valid(View()) && (Pending(View()) ==> Digit(c))
      modifies this, st, buf
      ensures Made(Step(env, old(View()), c), m)
    {
      hide Handle, Waiting;
      var s := st[sp];
      if IsSpace(c) {
        if c == 10 {
          comment := false;
        }
        if !Keeps(s) {
          if c == '#' as int {
            comment := true;
          }
          return Continues;
        }
      }
      if comment {
        return Continues;
      }
      m := Dispatch(env, c);
    }

    /**
      * lejp_parse, proved against the run of the step machine. It ends after finitely many turns, keeps the depth of
      * the stack within its limit and every access to the stack and the buffer within its array.
      */
    method Parse(env: Env, json: seq<byte>) returns (ret: int)
      requires Shape() && Valid(View()) && !Pending(View())
      modifies this, st, buf
      ensures var (x, r) := Run(env, old(View()), json, 0);
        && ret == ReturnValue(r) && calls == x.calls
        && (r.Rejected? || (Shape() && View() == x && Valid(View()) && !Pending(View())))
    {
      hide Valid, Pending, Step, Good;
      ghost var x := View();
      assert Ready(x, json, 0);
      var len: nat, i: nat := |json|, 0;
      while len > 0
        invariant i + len == |json| && Shape() && Ready(View(), json, i)
        invariant Run(env, View(), json, i) == Run(env, x, json, 0)
        decreases |json| - i, Rank(View().top)
      {
        StepGood(env, View(), json[i]);
        var m := Turn(env, json[i]);
        match m
        case Continues => len, i := len - 1, i + 1;
        case Again =>
        case Finished => return len - 1;
        case Fails(code) =>
          calls := calls + [Failed];
          return (code + 256) % 256;
      }
      return -1;
    }
  }
}
