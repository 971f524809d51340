/**
  * Incremental UTF-8 checking (lws_check_utf8) against the grammar of section 4 of RFC 3629.
  */
module Utf8 {
  import opened Bytes

  // ----- The grammar of section 4 of RFC 3629 -----

  predicate Tail(b: byte) { 0x80 <= b <= 0xBF }

  /** `s` is one UTF8-char production. */
  predicate IsChar(s: seq<byte>)
  {
    || (|s| == 1 && s[0] <= 0x7F)
    || (|s| == 2 && 0xC2 <= s[0] <= 0xDF && Tail(s[1]))
    || (|s| == 3 && Tail(s[2]) &&
        (|| (s[0] == 0xE0 && 0xA0 <= s[1] <= 0xBF)
         || (0xE1 <= s[0] <= 0xEC && Tail(s[1]))
         || (s[0] == 0xED && 0x80 <= s[1] <= 0x9F)
         || (0xEE <= s[0] <= 0xEF && Tail(s[1]))))
    || (|s| == 4 && Tail(s[2]) && Tail(s[3]) &&
        (|| (s[0] == 0xF0 && 0x90 <= s[1] <= 0xBF)
         || (0xF1 <= s[0] <= 0xF3 && Tail(s[1]))
         || (s[0] == 0xF4 && 0x80 <= s[1] <= 0x8F)))
  }

  /** `s` is UTF8-octets: zero or more UTF8-char productions. */
  predicate WellFormed(s: seq<byte>)
  {
    s == [] || exists k :: 1 <= k <= |s| && k <= 4 && IsChar(s[..k]) && WellFormed(s[k..])
  }

  /** `s` can still be completed to well-formed text. */
  ghost predicate Viable(s: seq<byte>)
  {
    exists t :: WellFormed(s + t)
  }

  // ----- The checker's state byte -----

  /** The e0f4 table at index c - 0xe0, for 0xe0 <= c <= 0xf4. */
  function LeadState(c: byte): byte
  {
    if c == 0xe0 then 0xa5
    else if c == 0xed then 0x85
    else if c < 0xf0 then 0x8d
    else if c == 0xf0 then 0x9a
    else if c < 0xf4 then 0x8e
    else 0x82
  }

  /** The e0f4 table at index 21 + r: the state that waits for r more tail bytes. */
  function TailState(r: int): byte
  {
    if r == 0 then 0 else if r == 1 then 0x8c else 0x8d
  }

  /** The lower bound, and the exclusive upper bound, that state `s` puts on the next byte. */
  function Low(s: byte): int { s - s % 16 }
  function High(s: byte): int { Low(s) + 0x10 + s / 4 % 4 * 0x10 }

  /** One byte of lws_check_utf8; None where it returns 1. */
  function Next(s: byte, c: byte): Option<byte>
  {
    if s == 0 then
      if c < 0x80 then Some(0)
      else if c < 0xc2 || c > 0xf4 then None
      else if c < 0xe0 then Some(0x8c)
      else Some(LeadState(c))
    else if c < Low(s) || c >= High(s) then None
    else Some(TailState(s % 4))
  }

  function Scan(s: byte, buf: seq<byte>): Option<byte>
    decreases |buf|
  {
    if buf == [] then Some(s)
    else
      var n := Next(s, buf[0]);
      if n.None? then None else Scan(n.value, buf[1..])
  }

  /** The state bytes the checker can reach from 0. */
  predicate State(s: byte) { s in {0, 0x8c, 0x8d, 0x85, 0xa5, 0x82, 0x8e, 0x9a} }

  /** lws_check_utf8: the state byte is only written back on success. */
  method CheckUtf8(state: byte, buf: seq<byte>) returns (ret: int, newState: byte)
    ensures ret == 0 || ret == 1
    ensures ret == 1 <==> Scan(state, buf).None?
    ensures newState == if ret == 0 then Scan(state, buf).value else state
  {
    var s := state;
    var i := 0;
    while i < |buf|
      invariant 0 <= i <= |buf|
      invariant Scan(state, buf) == Scan(s, buf[i..])
    {
      var c := buf[i];
      assert buf[i..][1..] == buf[i + 1..];
      if s == 0 {
        if c >= 0x80 {
          if c < 0xc2 || c > 0xf4 {
            return 1, state;
          }
          if c < 0xe0 {
            s := 0x8c;
          } else {
            s := LeadState(c);
          }
        }
      } else {
        var base: int := s - s % 16;
        var span: int := 0x10 + s / 4 % 4 * 0x10;
        if c < base || c >= base + span {
          return 1, state;
        }
        s := TailState(s % 4);
      }
      i := i + 1;
    }
    return 0, s;
  }

  // ----- Composition -----

  lemma {:induction false} ScanConcat(s: byte, a: seq<byte>, b: seq<byte>)
    ensures Scan(s, a + b) == (var m := Scan(s, a); if m.None? then None else Scan(m.value, b))
    decreases |a|
  {
    if a == [] {
      assert a + b == b;
    } else {
      assert (a + b)[1..] == a[1..] + b;
      if Next(s, a[0]).Some? {
        ScanConcat(Next(s, a[0]).value, a[1..], b);
      }
    }
  }

  lemma {:induction false} ScanState(s: byte, buf: seq<byte>)
    requires State(s)
    ensures Scan(s, buf).Some? ==> State(Scan(s, buf).value)
    decreases |buf|
  {
    if buf != [] && Next(s, buf[0]).Some? {
      ScanState(Next(s, buf[0]).value, buf[1..]);
    }
  }

  // ----- What each state still accepts -----

  /** The number of tail bytes state `s` waits for. */
  function Waits(s: byte): nat
  {
    if s == 0 then 0 else 1 + s % 4
  }

  /** `buf` finishes the character that state `s` is in the middle of, and is well formed after it. */
  predicate Finishes(s: byte, buf: seq<byte>)
  {
    if s == 0 then WellFormed(buf)
    else
      && Waits(s) <= |buf|
      && Low(s) <= buf[0] < High(s)
      && (forall i | 1 <= i < Waits(s) :: Tail(buf[i]))
      && WellFormed(buf[Waits(s)..])
  }

  /** `rest` holds the tail bytes that state `s` waits for, in the ranges it allows. */
  predicate Tails(s: byte, rest: seq<byte>)
  {
    && |rest| >= Waits(s)
    && (s != 0 ==> Low(s) <= rest[0] < High(s) && forall i | 1 <= i < Waits(s) :: Tail(rest[i]))
  }

  /** The first byte of a character tells its length and what its tail may be. */
  lemma CharHead(c: byte, rest: seq<byte>)
    ensures IsChar([c] + rest) <==>
      Next(0, c).Some? && |rest| == Waits(Next(0, c).value) && Tails(Next(0, c).value, rest)
  {
    var s := [c] + rest;
    assert s[0] == c && forall i | 1 <= i < |s| :: s[i] == rest[i - 1];
    if Next(0, c).Some? {
      var n := Next(0, c).value;
      StateRange(c);
      hide Low, High, Next, LeadState;
      assert |rest| == 1 ==> (Tails(n, rest) <==> Waits(n) <= 1 && (n != 0 ==> Low(n) <= rest[0] < High(n)));
      assert |rest| == 2 && Waits(n) == 2 ==> (Tails(n, rest) <==> Low(n) <= rest[0] < High(n) && Tail(rest[1]));
      assert |rest| == 3 && Waits(n) == 3 ==>
        (Tails(n, rest) <==> Low(n) <= rest[0] < High(n) && Tail(rest[1]) && Tail(rest[2]));
    }
  }

  /** What the first byte of a character says about its second. */
  lemma StateRange(c: byte)
    requires Next(0, c).Some?
    ensures c < 0x80 || 0xc2 <= c <= 0xf4
    ensures var n := Next(0, c).value;
      && (n == 0 <==> c < 0x80)
      && Waits(n) == (if c < 0x80 then 0 else if c < 0xe0 then 1 else if c < 0xf0 then 2 else 3)
      && (c >= 0x80 ==> Low(n) == if c == 0xe0 then 0xa0 else if c == 0xf0 then 0x90 else 0x80)
      && (c >= 0x80 ==> High(n) == if c == 0xed then 0xa0 else if c == 0xf4 then 0x90 else 0xc0)
  {
  }

  /** Well-formed text that is not empty starts with one character, whose length its first byte tells. */
  lemma {:induction false} WellFormedHead(buf: seq<byte>)
    requires buf != []
    ensures WellFormed(buf) <==> Next(0, buf[0]).Some? && Finishes(Next(0, buf[0]).value, buf[1..])
  {
    hide IsChar, Next, Waits, Low, High;
    forall k | 1 <= k <= |buf| ensures IsChar(buf[..k]) <==>
      Next(0, buf[0]).Some? && k == 1 + Waits(Next(0, buf[0]).value) && Tails(Next(0, buf[0]).value, buf[1..k])
    {
      assert buf[..k] == [buf[0]] + buf[1..k];
      CharHead(buf[0], buf[1..k]);
    }
    var n := Next(0, buf[0]);
    if n.Some? {
      FinishesTails(n.value, buf[1..]);
      var k := 1 + Waits(n.value);
      if k <= |buf| {
        assert buf[1..][..Waits(n.value)] == buf[1..k] && buf[1..][Waits(n.value)..] == buf[k..];
        StateRange(buf[0]);
      }
    }
  }

  lemma FinishesTails(s: byte, buf: seq<byte>)
    ensures Finishes(s, buf) <==> Waits(s) <= |buf| && Tails(s, buf[..Waits(s)]) && WellFormed(buf[Waits(s)..])
  {
    hide WellFormed;
    if s == 0 {
      assert buf[0..] == buf;
    }
  }

  lemma {:induction false} FinishesStep(s: byte, buf: seq<byte>)
    requires State(s) && buf != []
    ensures Finishes(s, buf) <==> Next(s, buf[0]).Some? && Finishes(Next(s, buf[0]).value, buf[1..])
  {
    hide WellFormed;
    if s == 0 {
      WellFormedHead(buf);
    } else {
      var w := Waits(s);
      if w <= |buf| {
        assert buf[1..][w - 1..] == buf[w..];
        assert forall i | 2 <= i < w :: buf[1..][i - 1] == buf[i];
      }
    }
  }

  lemma {:induction false} ScanFinishes(s: byte, buf: seq<byte>)
    requires State(s)
    ensures Scan(s, buf) == Some(0) <==> Finishes(s, buf)
    decreases |buf|
  {
    if buf != [] {
      FinishesStep(s, buf);
      if Next(s, buf[0]).Some? {
        ScanFinishes(Next(s, buf[0]).value, buf[1..]);
      }
    }
  }

  /** The checker ends in state 0 exactly on the well-formed texts. */
  lemma ScanIsWellFormed(buf: seq<byte>)
    ensures Scan(0, buf) == Some(0) <==> WellFormed(buf)
  {
    ScanFinishes(0, buf);
  }

  /** The shortest completion of the character that state `s` is in the middle of. */
  function Completion(s: byte): seq<byte>
    requires State(s)
  {
    if s == 0 then [] else [Low(s)] + seq(s % 4, _ => 0x80)
  }

  /** The checker has not failed exactly while the text can still be completed. */
  lemma ScanIsViable(buf: seq<byte>)
    ensures Scan(0, buf).Some? <==> Viable(buf)
  {
    var r := Scan(0, buf);
    if r.Some? {
      ScanState(0, buf);
      var t := Completion(r.value);
      ScanConcat(0, buf, t);
      assert Finishes(r.value, t);
      ScanFinishes(r.value, t);
      ScanIsWellFormed(buf + t);
    }
    if Viable(buf) {
      var t :| WellFormed(buf + t);
      ScanIsWellFormed(buf + t);
      ScanConcat(0, buf, t);
    }
  }
}
