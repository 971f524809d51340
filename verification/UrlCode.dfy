/** URL encoding and decoding of C strings (lws_urlencode, lws_urldecode) with their length limits. */
module UrlCode {
  import opened Bytes

  const PLUS: byte := 43
  const PERCENT: byte := 37
  const SPACE: byte := 32

  predicate Alnum(c: byte) { 48 <= c <= 57 || 65 <= c <= 90 || 97 <= c <= 122 }

  /** The hex table. */
  function HexDigit(n: nat): byte
    requires n < 16
  {
    if n < 10 then n + 48 else n + 55
  }

  /** char_to_hex, with None for -1. */
  function CharToHex(c: byte): (r: Option<int>)
    ensures r.Some? ==> 0 <= r.value < 16
  {
    if 48 <= c <= 57 then Some(c - 48)
    else if 97 <= c <= 102 then Some(c - 87)
    else if 65 <= c <= 70 then Some(c - 55)
    else None
  }

  // ----- encoding -----

  function EncodeChar(c: byte): (r: seq<byte>)
    ensures |r| == 1 || |r| == 3
  {
    if c == SPACE then [PLUS]
    else if Alnum(c) then [c]
    else [PERCENT, HexDigit(c / 16), HexDigit(c % 16)]
  }

  function Encode(s: seq<byte>): seq<byte>
  {
    if s == [] then [] else EncodeChar(s[0]) + Encode(s[1..])
  }

  /** How many characters of `s` are encoded into an output of `len` bytes: each needs more than 3 bytes left. */
  function Taken(s: seq<byte>, len: int): (k: nat)
    ensures k <= |s|
  {
    if s == [] || len <= 3 then 0 else 1 + Taken(s[1..], len - |EncodeChar(s[0])|)
  }

  /** What is written: the encoding of the characters that are taken. */
  function Encoded(s: seq<byte>, len: int): seq<byte> { Encode(s[..Taken(s, len)]) }

  lemma {:induction false} EncodedStep(s: seq<byte>, len: int)
    requires s != [] && len > 3
    ensures Encoded(s, len) == EncodeChar(s[0]) + Encoded(s[1..], len - |EncodeChar(s[0])|)
  {
    var k := Taken(s, len);
    assert s[..k][1..] == s[1..][..k - 1] && s[..k][0] == s[0];
  }

  lemma NothingTaken(s: seq<byte>, len: int)
    requires s == [] || len <= 3
    ensures Encoded(s, len) == []
  {
  }

  /** With its terminator, the output stays within `len` bytes, exactly if `len` has room for the terminator at all. */
  lemma {:induction false} StaysWithin(s: seq<byte>, len: int)
    ensures |Encoded(s, len)| + 1 <= len <==> len >= 1
    ensures len >= 1 ==> |Encoded(s, len)| + 1 <= len
    decreases |s|
  {
    if s != [] && len > 3 {
      EncodedStep(s, len);
      StaysWithin(s[1..], len - |EncodeChar(s[0])|);
    }
  }

  /** The first `k` characters are taken, exactly if more than 3 bytes are left before the last of them. */
  lemma {:induction false} TakesAtLeast(s: seq<byte>, len: int, k: nat)
    requires k <= |s|
    ensures k <= Taken(s, len) <==> k == 0 || len > |Encode(s[..k - 1])| + 3
    decreases |s|
  {
    if k == 1 {
      assert s[..0] == [];
    } else if k > 1 {
      var most := s[..k - 1];
      assert most[0] == s[0] && most[1..] == s[1..][..k - 2];
      TakesAtLeast(s[1..], len - |EncodeChar(s[0])|, k - 1);
    }
  }

  /** All of `s` is encoded, exactly if more than 3 bytes are left before its last character. */
  lemma TakesAll(s: seq<byte>, len: int)
    ensures Taken(s, len) == |s| <==> s == [] || len > |Encode(s[..|s| - 1])| + 3
  {
    TakesAtLeast(s, len, |s|);
  }

  // ----- decoding -----

  datatype State = Plain | High | Low(sum: nat)

  predicate ValidState(st: State) { st.Low? ==> st.sum < 16 }

  /** The decoder from position `i` on, with room for `len` characters: what it writes, and whether it returns 0. */
  function Decode(text: seq<byte>, i: nat, st: State, len: nat): (seq<byte>, bool)
    requires i <= |text| && ValidState(st)
    decreases |text| - i
  {
    if i == |text| || len == 0 then ([], true)
    else
      var c := text[i];
      match st
      case Plain =>
        if c == PERCENT then Decode(text, i + 1, High, len)
        else
          var (rest, ok) := Decode(text, i + 1, Plain, len - 1);
          ([if c == PLUS then SPACE else c] + rest, ok)
      case High =>
        var n := CharToHex(c);
        if n.None? then ([], false) else Decode(text, i + 1, Low(n.value), len)
      case Low(sum) =>
        var n := CharToHex(c);
        if n.None? then ([], false)
        else
          var (rest, ok) := Decode(text, i + 1, Plain, len - 1);
          ([sum * 16 + n.value] + rest, ok)
  }

  // ----- what a text stands for -----

  /** A character for itself, a plus sign for a space, or an escape for a value. */
  datatype Token = Char(c: byte) | Plus | Escape(value: byte, high: byte, low: byte)

  /** `c` is a hexadecimal digit, in either letter case, that stands for `v`. */
  predicate Stands(c: byte, v: nat)
  {
    || ('0' as int <= c <= '9' as int && c == '0' as int + v)
    || ('A' as int <= c <= 'F' as int && c == 'A' as int + v - 10)
    || ('a' as int <= c <= 'f' as int && c == 'a' as int + v - 10)
  }

  predicate ValidToken(t: Token)
  {
    match t
    case Char(c) => c != '%' as int && c != '+' as int
    case Plus => true
    case Escape(value, high, low) => Stands(high, value / 16) && Stands(low, value % 16)
  }

  predicate ValidTokens(tokens: seq<Token>) { forall t | t in tokens :: ValidToken(t) }

  function TokenText(t: Token): seq<byte>
  {
    match t
    case Char(c) => [c]
    case Plus => ['+' as int]
    case Escape(_, high, low) => ['%' as int, high, low]
  }

  function Text(tokens: seq<Token>): seq<byte>
  {
    if tokens == [] then [] else TokenText(tokens[0]) + Text(tokens[1..])
  }

  function Meaning(t: Token): byte
  {
    match t
    case Char(c) => c
    case Plus => ' ' as int
    case Escape(value, _, _) => value
  }

  function Meanings(tokens: seq<Token>): seq<byte> { seq(|tokens|, i requires 0 <= i < |tokens| => Meaning(tokens[i])) }

  lemma HexValue(c: byte, v: nat)
    ensures CharToHex(c) == Some(v) <==> Stands(c, v)
  {
  }

  lemma DecodeToken(text: seq<byte>, i: nat, t: Token, len: nat)
    requires ValidToken(t) && len > 0
    requires i + |TokenText(t)| <= |text| && text[i..i + |TokenText(t)|] == TokenText(t)
    ensures var r := Decode(text, i + |TokenText(t)|, Plain, len - 1);
      Decode(text, i, Plain, len).0 == [Meaning(t)] + r.0 && Decode(text, i, Plain, len).1 == r.1
  {
    var e := TokenText(t);
    assert text[i] == e[0];
    if t.Escape? {
      assert text[i + 1] == e[1] && text[i + 2] == e[2];
      HexValue(t.high, t.value / 16);
      HexValue(t.low, t.value % 16);
      assert Decode(text, i, Plain, len) == Decode(text, i + 1, High, len);
      assert Decode(text, i + 1, High, len) == Decode(text, i + 2, Low(t.value / 16), len);
    }
  }

  /** Tokens decode to what they mean as far as there is room; behind them the decoder goes on. */
  lemma {:induction false} DecodeTokens(text: seq<byte>, i: nat, tokens: seq<Token>, tail: seq<byte>, len: nat)
    requires ValidTokens(tokens) && i <= |text| && text[i..] == Text(tokens) + tail
    ensures len <= |tokens| ==> Decode(text, i, Plain, len) == (Meanings(tokens)[..len], true)
    ensures len > |tokens| ==>
      var r := Decode(text, |text| - |tail|, Plain, len - |tokens|);
      Decode(text, i, Plain, len).0 == Meanings(tokens) + r.0 && Decode(text, i, Plain, len).1 == r.1
    decreases |tokens|
  {
    hide Decode, TokenText, Meaning, ValidToken;
    if len == 0 {
      DecodeNothing(text, i, len);
      assert Meanings(tokens)[..0] == [];
    } else if tokens == [] {
      assert text[i..] == tail && |text[i..]| == |text| - i;
      var r := Decode(text, i, Plain, len);
      assert Meanings(tokens) + r.0 == r.0;
    } else {
      var t, rest := tokens[0], tokens[1..];
      Head(text, i, tokens, tail);
      DecodeToken(text, i, t, len);
      DecodeTokens(text, i + |TokenText(t)|, rest, tail, len - 1);
      Prefixed(tokens, len, if len > |tokens| then Decode(text, |text| - |tail|, Plain, len - |tokens|).0 else []);
    }
  }

  lemma Head(text: seq<byte>, i: nat, tokens: seq<Token>, tail: seq<byte>)
    requires tokens != [] && i <= |text| && text[i..] == Text(tokens) + tail
    ensures var e := TokenText(tokens[0]);
      i + |e| <= |text| && text[i..i + |e|] == e && text[i + |e|..] == Text(tokens[1..]) + tail
  {
    hide TokenText;
    var e := TokenText(tokens[0]);
    assert Text(tokens) + tail == e + (Text(tokens[1..]) + tail);
    Cut(text, i, e, Text(tokens[1..]) + tail);
  }

  lemma Prefixed(tokens: seq<Token>, len: nat, more: seq<byte>)
    requires tokens != [] && len > 0
    ensures [Meaning(tokens[0])] + (Meanings(tokens[1..]) + more) == Meanings(tokens) + more
    ensures len <= |tokens| ==> [Meaning(tokens[0])] + Meanings(tokens[1..])[..len - 1] == Meanings(tokens)[..len]
  {
    hide Meaning;
    assert Meanings(tokens) == [Meaning(tokens[0])] + Meanings(tokens[1..]);
  }

  /** Every text of tokens, with hexadecimal digits in either case, decodes to what they mean, cut to `len`. */
  lemma Decodes(tokens: seq<Token>, len: nat)
    requires ValidTokens(tokens)
    ensures Decode(Text(tokens), 0, Plain, len) == (Meanings(tokens)[..if len < |tokens| then len else |tokens|], true)
  {
    var text := Text(tokens);
    assert text[0..] == text + [];
    DecodeTokens(text, 0, tokens, [], len);
    if len > |tokens| {
      DecodeNothing(text, |text|, len - |tokens|);
      assert Meanings(tokens)[..|tokens|] == Meanings(tokens) + [];
    }
  }

  /** Where there is room, an escape that is not two hexadecimal digits is refused; one cut short by the end is not. */
  lemma BadEscape(tokens: seq<Token>, more: seq<byte>, len: nat)
    requires ValidTokens(tokens) && len > |tokens|
    ensures var digits := |more| >= 2 && (exists v :: Stands(more[0], v)) && (exists v :: Stands(more[1], v));
      var cut := more == [] || (|more| == 1 && exists v :: Stands(more[0], v));
      !digits ==> Decode(Text(tokens) + (['%' as int] + more), 0, Plain, len) == (Meanings(tokens), cut)
  {
    hide Decode, Stands;
    var tail := ['%' as int] + more;
    var text := Text(tokens) + tail;
    assert text[0..] == text;
    DecodeTokens(text, 0, tokens, tail, len);
    var j := |text| - |tail|;
    assert text[j..] == tail;
    EscapeEnds(text, j, more, len - |tokens|);
    assert Meanings(tokens) + [] == Meanings(tokens);
  }

  lemma EscapeEnds(text: seq<byte>, j: nat, more: seq<byte>, room: nat)
    requires j <= |text| && text[j..] == ['%' as int] + more && room > 0
    ensures var digits := |more| >= 2 && (exists v :: Stands(more[0], v)) && (exists v :: Stands(more[1], v));
      var cut := more == [] || (|more| == 1 && exists v :: Stands(more[0], v));
      !digits ==> Decode(text, j, Plain, room) == ([], cut)
  {
    hide Stands, CharToHex;
    Digits(more);
    assert |text[j..]| == |text| - j == 1 + |more| && text[j] == text[j..][0];
    assert forall k | 0 <= k < |more| :: text[j + 1 + k] == text[j..][1 + k] == more[k];
    assert Decode(text, j, Plain, room) == Decode(text, j + 1, High, room);
    if |more| >= 1 && CharToHex(more[0]).Some? {
      var n := CharToHex(more[0]).value;
      assert Decode(text, j + 1, High, room) == Decode(text, j + 2, Low(n), room);
    }
  }

  lemma Digits(s: seq<byte>)
    ensures forall k | 0 <= k < |s| :: CharToHex(s[k]).Some? <==> exists v :: Stands(s[k], v)
  {
    forall k | 0 <= k < |s| ensures CharToHex(s[k]).Some? <==> exists v :: Stands(s[k], v) {
      if CharToHex(s[k]).Some? {
        HexValue(s[k], CharToHex(s[k]).value);
      }
      forall v: nat | Stands(s[k], v) ensures CharToHex(s[k]).Some? {
        HexValue(s[k], v);
      }
    }
  }

  /** Letters and digits stand for themselves, a space becomes a plus sign, and all else an escape in upper case. */
  function Spelling(c: byte): Token
  {
    if c == ' ' as int then Plus
    else if 'a' as int <= c <= 'z' as int || 'A' as int <= c <= 'Z' as int || '0' as int <= c <= '9' as int then Char(c)
    else Escape(c, Upper(c / 16), Upper(c % 16))
  }

  function Upper(v: nat): byte
    requires v < 16
  {
    if v < 10 then '0' as int + v else 'A' as int + v - 10
  }

  function Spellings(s: seq<byte>): seq<Token> { seq(|s|, i requires 0 <= i < |s| => Spelling(s[i])) }

  lemma {:induction false} EncodesAs(s: seq<byte>)
    ensures ValidTokens(Spellings(s)) && Encode(s) == Text(Spellings(s)) && Meanings(Spellings(s)) == s
  {
    if s != [] {
      EncodesAs(s[1..]);
      assert Spellings(s) == [Spelling(s[0])] + Spellings(s[1..]);
      assert EncodeChar(s[0]) == TokenText(Spelling(s[0])) && ValidToken(Spelling(s[0]));
      assert Spellings(s)[1..] == Spellings(s[1..]);
    }
  }

  lemma DecodeNothing(text: seq<byte>, i: nat, len: nat)
    requires i <= |text| && (text[i..] == [] || len == 0)
    ensures Decode(text, i, Plain, len) == ([], true)
  {
    assert |text[i..]| == |text| - i;
  }

  lemma Cut(text: seq<byte>, i: nat, a: seq<byte>, b: seq<byte>)
    requires i <= |text| && text[i..] == a + b
    ensures i + |a| <= |text| && text[i..i + |a|] == a && text[i + |a|..] == b
  {
    assert |text[i..]| == |text| - i;
    assert text[i..][..|a|] == text[i..i + |a|] && text[i..][|a|..] == text[i + |a|..];
  }

  /**
    * Encoding into `n` bytes and decoding with room for `len` characters gives back the characters taken, cut to
    * `len`: the whole string exactly if it was taken whole and fits.
    */
  lemma RoundTrip(s: seq<byte>, n: int, len: nat)
    ensures var k := Taken(s, n);
      var (back, ok) := Decode(Encoded(s, n), 0, Plain, len);
      && ok
      && back == s[..if len < k then len else k]
      && (back == s <==> k == |s| && len >= |s|)
  {
    var k := Taken(s, n);
    EncodesAs(s[..k]);
    Decodes(Spellings(s[..k]), len);
    var m := if len < k then len else k;
    assert s[..k][..m] == s[..m];
    if m == |s| {
      assert s[..m] == s;
    }
  }

  // ----- as it is written -----

  /** One turn of the encoder's loop: the encoding of `c` is stored at `n`. */
  method PutChar(out: array<byte>, n: nat, c: byte) returns (k: nat)
    requires n + 3 <= out.Length
    modifies out
    ensures k == n + |EncodeChar(c)| && out[..k] == old(out[..n]) + EncodeChar(c)
    ensures out[k..] == old(out[k..])
  {
    if c == SPACE {
      CopyInto(out, n, [PLUS]);
    } else if Alnum(c) {
      CopyInto(out, n, [c]);
    } else {
      CopyInto(out, n, [PERCENT, HexDigit(c / 16), HexDigit(c % 16)]);
    }
    k := n + |EncodeChar(c)|;
  }

  /** lws_urlencode; the terminator is written even where `len` leaves no room for it. */
  method UrlEncode(s: seq<byte>, out: array<byte>, len: int) returns (n: nat)
    requires out.Length >= 1 && out.Length >= len
    modifies out
    ensures n < out.Length && out[..n] == Encoded(s, len) && out[n] == 0
    ensures out[n + 1..] == old(out[n + 1..])
  {
    hide Encode, EncodeChar, Taken, Encoded;
    n := 0;
    var left, i := len, 0;
    assert s[0..] == s;
    while i < |s| && left > 3
      invariant 0 <= i <= |s| && n + left == len && (n > 0 ==> left >= 1)
      invariant n <= out.Length && Encoded(s, len) == out[..n] + Encoded(s[i..], left)
      invariant out[n..] == old(out[n..])
    {
      var c := s[i];
      assert s[i..][0] == c && s[i..][1..] == s[i + 1..];
      EncodedStep(s[i..], left);
      ghost var before, was := out[..n], out[n..];
      var k := PutChar(out, n, c);
      ghost var more := Encoded(s[i + 1..], left - |EncodeChar(c)|);
      assert before + (EncodeChar(c) + more) == (before + EncodeChar(c)) + more;
      assert out[k..] == was[k - n..];
      n, left := k, left - (k - n);
      i := i + 1;
    }
    NothingTaken(s[i..], left);
    out[n] := 0;
  }

  /** One turn of the decoder's loop, by its states: what comes next, and what is stored. */
  lemma DecodeTurn(text: seq<byte>, i: nat, st: State, len: nat)
    requires i < |text| && ValidState(st) && len > 0
    ensures var c, all, next := text[i], Decode(text, i, st, len), Decode(text, i + 1, Plain, len - 1);
      match st
      case Plain =>
        if c == PERCENT then all == Decode(text, i + 1, High, len)
        else all.0 == [if c == PLUS then SPACE else c] + next.0 && all.1 == next.1
      case High =>
        if CharToHex(c).None? then all == ([], false) else all == Decode(text, i + 1, Low(CharToHex(c).value), len)
      case Low(sum) =>
        if CharToHex(c).None? then all == ([], false)
        else all.0 == [sum * 16 + CharToHex(c).value] + next.0 && all.1 == next.1
  {
    hide CharToHex;
  }

  /** lws_urldecode; the buffer has room for `len` characters and the terminator. */
  method UrlDecode(text: seq<byte>, out: array<byte>, len: nat) returns (ret: int, n: nat)
    requires out.Length > len
    modifies out
    ensures var (back, ok) := Decode(text, 0, Plain, len);
      && ret == (if ok then 0 else -1)
      && n == |back| <= len && out[..n] == back
      && (ok ==> out[n] == 0)
  {
    hide Decode, CharToHex;
    n := 0;
    var st, i, left := Plain, 0, len;
    ghost var all := Decode(text, 0, Plain, len);
    assert out[..0] + all.0 == all.0;
    while i < |text| && left > 0
      invariant 0 <= i <= |text| && ValidState(st) && n + left == len
      invariant var r := Decode(text, i, st, left); all.0 == out[..n] + r.0 && all.1 == r.1
      decreases |text| - i
    {
      var c := text[i];
      DecodeTurn(text, i, st, left);
      ghost var before, r := out[..n], Decode(text, i + 1, Plain, left - 1);
      match st {
        case Plain =>
          if c == PERCENT {
            st := High;
          } else {
            out[n] := if c == PLUS then SPACE else c;
            assert before + ([out[n]] + r.0) == out[..n + 1] + r.0;
            n, left := n + 1, left - 1;
          }
        case High =>
          var h := CharToHex(c);
          if h.None? {
            return -1, n;
          }
          st := Low(h.value);
        case Low(sum) =>
          var h := CharToHex(c);
          if h.None? {
            return -1, n;
          }
          out[n] := sum * 16 + h.value;
          assert before + ([out[n]] + r.0) == out[..n + 1] + r.0;
          n, left := n + 1, left - 1;
          st := Plain;
      }
      i := i + 1;
    }
    DecodeOver(text, i, st, left);
    assert out[..n] + [] == out[..n];
    out[n] := 0;
    ret := 0;
  }

  lemma DecodeOver(text: seq<byte>, i: nat, st: State, len: nat)
    requires i <= |text| && ValidState(st) && (i == |text| || len == 0)
    ensures Decode(text, i, st, len) == ([], true)
  {
  }
}
