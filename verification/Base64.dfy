/** Base64 encoding and decoding (section 4 of RFC 4648) with the source's buffer checks. */
module Base64 {
  import opened Bytes

  const PAD: byte := 61   // '='

  /** The encode table. */
  function EncodeChar(v: nat): byte
    requires v < 64
  {
    if v < 26 then v + 65 else if v < 52 then v + 71 else if v < 62 then v - 4 else if v == 62 then 43 else 47
  }

  /** One more than the value of a character, as looked up in the decode table; 0 if it is not in the alphabet. */
  function Slot(c: byte): (v: nat)
    ensures v <= 64
  {
    if 65 <= c <= 90 then c - 64
    else if 97 <= c <= 122 then c - 70
    else if 48 <= c <= 57 then c + 5
    else if c == 43 then 63
    else if c == 47 then 64
    else 0
  }

  lemma SlotOfChar(v: nat)
    requires v < 64
    ensures Slot(EncodeChar(v)) == v + 1 && EncodeChar(v) != 0 && EncodeChar(v) != PAD
  {
  }

  /** The alphabet of section 4 of RFC 4648. */
  function Letter(v: nat): char
    requires v < 64
  {
    if v < 26 then 'A' + v as char
    else if v < 52 then 'a' + (v - 26) as char
    else if v < 62 then '0' + (v - 52) as char
    else if v == 62 then '+' else '/'
  }

  lemma Alphabet(v: nat, c: byte)
    requires v < 64
    ensures EncodeChar(v) == Letter(v) as int
    ensures Slot(c) == v + 1 <==> c == Letter(v) as int
  {
  }

  // ----- encoding -----

  /** Four characters for one to three bytes. */
  function Quad(t: seq<byte>): (q: seq<byte>)
    requires 1 <= |t| <= 3
    ensures |q| == 4
  {
    var t1, t2 := if |t| > 1 then t[1] else 0, if |t| > 2 then t[2] else 0;
    [EncodeChar(t[0] / 4),
     EncodeChar(t[0] % 4 * 16 + t1 / 16),
     if |t| > 1 then EncodeChar(t1 % 16 * 4 + t2 / 64) else PAD,
     if |t| > 2 then EncodeChar(t2 % 64) else PAD]
  }

  function Encode(b: seq<byte>): seq<byte>
  {
    if b == [] then []
    else if |b| <= 3 then Quad(b)
    else Quad(b[..3]) + Encode(b[3..])
  }

  // ----- decoding -----

  /** From `i` to the next character of the alphabet, or the end: the position after, its slot, the last character. */
  function NextSlot(text: seq<byte>, i: nat): (r: (nat, nat, byte))
    requires i < |text|
    ensures i < r.0 <= |text| && r.1 <= 64 && (r.0 < |text| ==> r.1 != 0) && r.2 == text[r.0 - 1]
    decreases |text| - i
  {
    var v := Slot(text[i]);
    if v != 0 || i + 1 == |text| then (i + 1, v, text[i]) else NextSlot(text, i + 1)
  }

  /** Characters that are not in the alphabet are passed over. */
  lemma {:induction false} PassesOver(text: seq<byte>, i: nat, k: nat, v: nat)
    requires i <= k < |text| && v < 64 && text[k] == Letter(v) as int
    requires forall j, u | i <= j < k && 0 <= u < 64 :: text[j] != Letter(u) as int
    ensures NextSlot(text, i) == (k + 1, v + 1, text[k])
    decreases k - i
  {
    hide Letter;
    Alphabet(v, text[k]);
    if i < k {
      assert Slot(text[i]) == 0 by {
        if Slot(text[i]) > 0 {
          Alphabet(Slot(text[i]) - 1, text[i]);
        }
      }
      PassesOver(text, i + 1, k, v);
    }
  }

  type Six = v: int | 0 <= v < 64

  /** The positions, slots and length of one group, from slot `k` on. */
  datatype Group = Group(i: nat, quad: seq<Six>, len: nat, c: byte)

  function ReadGroup(text: seq<byte>, g: Group): (r: Group)
    requires g.i <= |text| && |g.quad| == 4 && g.len <= 4
    ensures g.i <= r.i <= |text| && |r.quad| == 4 && r.len <= 4
    ensures g.len < 4 && g.i < |text| ==> g.i < r.i && g.len < r.len
    decreases 4 - g.len
  {
    if g.len == 4 || g.i == |text| then g
    else
      var (j, v, c) := NextSlot(text, g.i);
      ReadGroup(text, Group(j, if v != 0 then g.quad[g.len := v - 1] else g.quad, g.len + 1, c))
  }

  function GroupBytes(q: seq<Six>, len: int): seq<byte>
    requires |q| == 4 && len <= 4
  {
    var b0: byte := q[0] as int * 4 + q[1] as int / 16;
    var b1: byte := q[1] as int % 16 * 16 + q[2] as int / 4;
    var b2: byte := q[2] as int % 4 * 64 + q[3] as int;
    if len <= 1 then [] else if len == 2 then [b0] else if len == 3 then [b0, b1] else [b0, b1, b2]
  }

  /** The length of a group, once padding at the very end is taken off. */
  function Trimmed(text: seq<byte>, g: Group): int
  {
    if g.i == |text| && g.c == PAD then g.len - 1 else g.len
  }

  /** The bytes decoded from position `i` on and the final `done`; None where the output does not fit. */
  function Decode(text: seq<byte>, i: nat, quad: seq<Six>, done: int, outSize: int): Option<(seq<byte>, int)>
    requires i <= |text| && |quad| == 4
    decreases |text| - i
  {
    if i == |text| then if done + 1 >= outSize then None else Some(([], done))
    else
      var g := ReadGroup(text, Group(i, quad, 0, 0));
      if outSize < done + g.len - 1 then None
      else
        var len := Trimmed(text, g);
        var r := Decode(text, g.i, g.quad, done + len - 1, outSize);
        if r.None? then None else Some((GroupBytes(g.quad, len) + r.value.0, r.value.1))
  }

  // ----- the round trip -----

  /** The quad that a group of one to three bytes puts into the slots. */
  function SlotsOf(t: seq<byte>, quad: seq<Six>): (q: seq<Six>)
    requires 1 <= |t| <= 3 && |quad| == 4
    ensures |q| == 4
  {
    var t1, t2 := if |t| > 1 then t[1] else 0, if |t| > 2 then t[2] else 0;
    [t[0] / 4, t[0] % 4 * 16 + t1 / 16,
     if |t| > 1 then t1 % 16 * 4 + t2 / 64 else quad[2],
     if |t| > 2 then t2 % 64 else quad[3]]
  }

  /** Section 4 of RFC 4648: the slots are the digits, to base 64, of the group read as one number, zero bits added. */
  lemma GroupIsNumber(t: seq<byte>, quad: seq<Six>)
    requires 1 <= |t| <= 3 && |quad| == 4
    ensures var q := SlotsOf(t, quad);
      match |t|
      case 1 => q[0] as int * 64 + q[1] as int == t[0] as int * 16
      case 2 => (q[0] as int * 64 + q[1] as int) * 64 + q[2] as int == (t[0] as int * 256 + t[1] as int) * 4
      case _ =>
        ((q[0] as int * 64 + q[1] as int) * 64 + q[2] as int) * 64 + q[3] as int
        == (t[0] as int * 256 + t[1] as int) * 256 + t[2] as int
  {
  }

  lemma BitsBack(t: seq<byte>, quad: seq<Six>)
    requires 1 <= |t| <= 3 && |quad| == 4
    ensures GroupBytes(SlotsOf(t, quad), |t| + 1) == t
  {
    var q := SlotsOf(t, quad);
    assert q[0] as int * 4 + q[1] as int / 16 == t[0];
    if |t| > 1 {
      assert q[1] as int % 16 * 16 + q[2] as int / 4 == t[1];
    }
    if |t| > 2 {
      assert q[2] as int % 4 * 64 + q[3] as int == t[2];
    }
  }

  lemma OneSlot(text: seq<byte>, g: Group, v: nat)
    requires g.i < |text| && |g.quad| == 4 && g.len < 4 && v < 64 && text[g.i] == EncodeChar(v)
    ensures ReadGroup(text, g) == ReadGroup(text, Group(g.i + 1, g.quad[g.len := v], g.len + 1, text[g.i]))
  {
    SlotOfChar(v);
  }

  /** The slots once the first `n` of them hold those of `q`. */
  function Filled(quad: seq<Six>, q: seq<Six>, n: nat): seq<Six>
    requires |quad| == 4 && |q| == 4 && n <= 4
  {
    q[..n] + quad[n..]
  }

  lemma {:induction false} FillSlots(text: seq<byte>, i: nat, quad: seq<Six>, q: seq<Six>, n: nat)
    requires |quad| == 4 && |q| == 4 && n <= 4 && i + n <= |text|
    requires forall k | 0 <= k < n :: text[i + k] == EncodeChar(q[k])
    ensures ReadGroup(text, Group(i, quad, 0, 0))
         == ReadGroup(text, Group(i + n, Filled(quad, q, n), n, if n == 0 then 0 else text[i + n - 1]))
    decreases n
  {
    hide ReadGroup, EncodeChar;
    if n == 0 {
      assert Filled(quad, q, 0) == quad;
    } else {
      FillSlots(text, i, quad, q, n - 1);
      OneSlot(text, Group(i + n - 1, Filled(quad, q, n - 1), n - 1, if n == 1 then 0 else text[i + n - 2]), q[n - 1]);
      assert Filled(quad, q, n - 1)[n - 1 := q[n - 1]] == Filled(quad, q, n);
    }
  }

  /** The characters of a group are those of its slots, and then padding. */
  lemma QuadChars(t: seq<byte>, quad: seq<Six>)
    requires 1 <= |t| <= 3 && |quad| == 4
    ensures var q := SlotsOf(t, quad);
      && |Quad(t)| == 4 && Filled(quad, q, |t| + 1) == q
      && (forall k | 0 <= k <= |t| :: Quad(t)[k] == EncodeChar(q[k]))
      && (forall k | |t| < k < 4 :: Quad(t)[k] == PAD)
  {
    hide EncodeChar;
  }

  /** A group of three bytes. */
  lemma FullGroup(text: seq<byte>, i: nat, t: seq<byte>, quad: seq<Six>)
    requires |t| == 3 && |quad| == 4 && i + 4 <= |text| && text[i..i + 4] == Quad(t)
    ensures ReadGroup(text, Group(i, quad, 0, 0)) == Group(i + 4, SlotsOf(t, quad), 4, text[i + 3])
    ensures text[i + 3] != PAD
  {
    hide ReadGroup, Quad, SlotsOf, Filled;
    QuadChars(t, quad);
    var q := SlotsOf(t, quad);
    forall k | 0 <= k < 4 ensures text[i + k] == EncodeChar(q[k]) {
      assert text[i + k] == text[i..i + 4][k];
    }
    FillSlots(text, i, quad, q, 4);
    GroupDone(text, Group(i + 4, q, 4, text[i + 3]));
    SlotOfChar(q[3]);
  }

  lemma GroupDone(text: seq<byte>, g: Group)
    requires g.i <= |text| && |g.quad| == 4 && g.len <= 4 && (g.len == 4 || g.i == |text|)
    ensures ReadGroup(text, g) == g
  {
  }

  /** A group of one or two bytes, with padding, at the end. */
  lemma PaddedGroup(text: seq<byte>, i: nat, t: seq<byte>, quad: seq<Six>)
    requires 1 <= |t| <= 2 && |quad| == 4 && i + 4 == |text| && text[i..i + 4] == Quad(t)
    ensures ReadGroup(text, Group(i, quad, 0, 0)) == Group(|text|, SlotsOf(t, quad), |t| + 2, PAD)
  {
    hide ReadGroup, Quad, SlotsOf, Filled;
    QuadChars(t, quad);
    var q, n := SlotsOf(t, quad), |t| + 1;
    forall k | 0 <= k < n ensures text[i + k] == EncodeChar(q[k]) {
      assert text[i + k] == text[i..i + 4][k];
    }
    FillSlots(text, i, quad, q, n);
    forall k | i + n <= k < |text| ensures text[k] == PAD {
      assert text[k] == text[i..i + 4][k - i];
    }
    PadSlot(text, Group(i + n, q, n, text[i + n - 1]));
  }

  lemma PadSlot(text: seq<byte>, g: Group)
    requires g.i < |text| && |g.quad| == 4 && g.len < 4
    requires forall k | g.i <= k < |text| :: text[k] == PAD
    ensures ReadGroup(text, g) == Group(|text|, g.quad, g.len + 1, PAD)
  {
    OnlyPads(text, g.i);
    GroupDone(text, Group(|text|, g.quad, g.len + 1, PAD));
  }

  lemma {:induction false} OnlyPads(text: seq<byte>, i: nat)
    requires i < |text| && forall k | i <= k < |text| :: text[k] == PAD
    ensures NextSlot(text, i) == (|text|, 0, PAD)
    decreases |text| - i
  {
    if i + 1 < |text| {
      OnlyPads(text, i + 1);
    }
  }

  lemma {:induction false} RoundTripFrom(text: seq<byte>, i: nat, b: seq<byte>, quad: seq<Six>, done: nat, outSize: int)
    requires i <= |text| && |quad| == 4 && text[i..] == Encode(b)
    ensures Decode(text, i, quad, done, outSize)
         == if outSize >= done + |b| + 2 then Some((b, done + |b|)) else None
    decreases |b|
  {
    hide ReadGroup, GroupBytes, Quad, SlotsOf;
    if b != [] {
      var t := if |b| <= 3 then b else b[..3];
      assert text[i..i + 4] == Quad(t) by { assert text[i..][..4] == text[i..i + 4]; }
      BitsBack(t, quad);
      if |b| <= 2 {
        PaddedGroup(text, i, b, quad);
        assert b + [] == b;
      } else {
        FullGroup(text, i, t, quad);
        var rest := if |b| == 3 then [] else b[3..];
        assert text[i + 4..] == Encode(rest) by { assert text[i..][4..] == text[i + 4..]; }
        RoundTripFrom(text, i + 4, rest, SlotsOf(t, quad), done + 3, outSize);
        assert b == t + rest;
      }
    }
  }

  /**
    * Decoding what was encoded gives the same bytes and their number, whatever the slots held before, exactly if
    * the output buffer has two bytes more than that.
    */
  lemma RoundTrip(b: seq<byte>, quad: seq<Six>, outSize: int)
    requires |quad| == 4
    ensures Decode(Encode(b), 0, quad, 0, outSize) == if outSize >= |b| + 2 then Some((b, |b|)) else None
  {
    assert Encode(b)[0..] == Encode(b);
    RoundTripFrom(Encode(b), 0, b, quad, 0, outSize);
  }

  lemma {:induction false} EncodedText(b: seq<byte>)
    ensures |Encode(b)| == (|b| + 2) / 3 * 4
    ensures 0 !in Encode(b)
  {
    if |b| > 3 {
      EncodedText(b[3..]);
    }
  }

  // ----- as it is written -----

  /** lws_b64_encode_string. */
  method EncodeString(b: seq<byte>, out: array<byte>, outSize: nat) returns (ret: int)
    requires outSize <= out.Length
    modifies out
    ensures ret == if outSize >= |Encode(b)| + 2 then |Encode(b)| else -1
    ensures ret >= 0 ==> out[..ret + 1] == Encode(b) + [0]
    ensures out[outSize..] == old(out[outSize..])
  {
    hide Quad;
    var done, i := 0, 0;
    while i < |b|
      invariant 0 <= i <= |b| && done <= outSize
      invariant Encode(b) == out[..done] + Encode(b[i..])
      invariant out[outSize..] == old(out[outSize..])
    {
      var t := if i + 3 <= |b| then b[i..i + 3] else b[i..];
      EncodeStep(b, i, t);
      if done + 4 >= outSize {
        return -1;
      }
      ghost var before := out[..done];
      StoreAt(out, done, Quad(t), outSize);
      assert before + (Quad(t) + Encode(b[i + |t|..])) == (before + Quad(t)) + Encode(b[i + |t|..]);
      done := done + 4;
      i := i + |t|;
    }
    assert b[i..] == [];
    if done + 1 >= outSize {
      return -1;
    }
    StoreAt(out, done, [0], outSize);
    return done;
  }

  lemma EncodeStep(b: seq<byte>, i: nat, t: seq<byte>)
    requires i < |b| && t == if i + 3 <= |b| then b[i..i + 3] else b[i..]
    ensures 1 <= |t| <= 3 && Encode(b[i..]) == Quad(t) + Encode(b[i + |t|..])
  {
    var r := b[i..];
    if |r| > 3 {
      assert r[..3] == t && r[3..] == b[i + 3..];
    } else {
      assert r == t && b[i + |t|..] == [];
    }
  }

  /** The inner loop of the decoder: on to the next character of the alphabet. */
  method SkipTo(text: seq<byte>, i: nat) returns (j: nat, v: nat, c: byte)
    requires i < |text|
    ensures j == NextSlot(text, i).0 && v == NextSlot(text, i).1 && c == NextSlot(text, i).2
  {
    j, v, c := i, 0, 0;
    while j < |text| && v == 0
      invariant i <= j <= |text| && v <= 64 && (j == i ==> v == 0)
      invariant v == 0 && j < |text| ==> NextSlot(text, j) == NextSlot(text, i)
      invariant j > i && (v != 0 || j == |text|) ==> NextSlot(text, i) == (j, v, c)
      decreases |text| - j, if v == 0 then 1 else 0
    {
      c := text[j];
      v := Slot(c);
      j := j + 1;
    }
  }

  /** One group of up to four characters of the alphabet. */
  method TakeGroup(text: seq<byte>, i: nat, quad: seq<Six>) returns (g: Group)
    requires i < |text| && |quad| == 4
    ensures g == ReadGroup(text, Group(i, quad, 0, 0))
  {
    g := Group(i, quad, 0, 0);
    while g.len < 4 && g.i < |text|
      invariant g.i <= |text| && |g.quad| == 4 && g.len <= 4
      invariant ReadGroup(text, g) == ReadGroup(text, Group(i, quad, 0, 0))
      decreases 4 - g.len
    {
      var j, v, c := SkipTo(text, g.i);
      g := Group(j, if v != 0 then g.quad[g.len := v - 1] else g.quad, g.len + 1, c);
    }
  }

  /** lws_b64_decode_string, whatever the slots hold at the start. */
  method DecodeString(text: seq<byte>, out: array<byte>, outSize: nat, slots: seq<Six>) returns (ret: int)
    requires outSize <= out.Length && |slots| == 4
    modifies out
    ensures var r := Decode(text, 0, slots, 0, outSize);
      && ret == (if r.Some? then r.value.1 else -1)
      && (r.Some? ==> |r.value.0| < outSize && out[..|r.value.0| + 1] == r.value.0 + [0])
    ensures out[outSize..] == old(out[outSize..])
  {
    hide ReadGroup, GroupBytes, Decode;
    ghost var all := Decode(text, 0, slots, 0, outSize);
    var done: int, at: nat, i: nat, quad: seq<Six> := 0, 0, 0, slots;
    assert out[..0] == [] && (all.Some? ==> [] + all.value.0 == all.value.0);
    while i < |text|
      invariant i <= |text| && |quad| == 4 && at <= outSize
      invariant if i < |text| then done == at else at - 1 <= done <= at
      invariant out[outSize..] == old(out[outSize..])
      invariant After(all, out[..at], Decode(text, i, quad, done, outSize))
      decreases |text| - i
    {
      var g := TakeGroup(text, i, quad);
      DecodeStep(text, i, quad, done, outSize, g);
      if outSize < done + g.len - 1 {
        return -1;
      }
      var len := Trimmed(text, g);
      GroupSize(g.quad, len);
      AfterStep(all, out[..at], GroupBytes(g.quad, len), Decode(text, g.i, g.quad, done + len - 1, outSize));
      StoreAt(out, at, GroupBytes(g.quad, len), outSize);
      at := at + |GroupBytes(g.quad, len)|;
      done := done + len - 1;
      i, quad := g.i, g.quad;
    }
    DecodeEnd(text, quad, done, outSize);
    if done + 1 >= outSize {
      return -1;
    }
    assert out[..at] + [] == out[..at];
    StoreAt(out, at, [0], outSize);
    return done;
  }

  /** Stores within the first `outSize` bytes leave the others alone. */
  method StoreAt(out: array<byte>, at: nat, src: seq<byte>, outSize: nat)
    requires at + |src| <= outSize <= out.Length
    modifies out
    ensures out[..at + |src|] == old(out[..at]) + src && out[outSize..] == old(out[outSize..])
  {
    ghost var tail := out[at + |src|..];
    CopyInto(out, at, src);
    assert out[outSize..] == out[at + |src|..][outSize - at - |src|..];
    assert old(out[outSize..]) == tail[outSize - at - |src|..];
  }

  /** The outcome `all` is the bytes `done` and then the outcome `rest`. */
  ghost predicate After(all: Option<(seq<byte>, int)>, done: seq<byte>, rest: Option<(seq<byte>, int)>)
  {
    if rest.None? then all.None?
    else all.Some? && all.value.0 == done + rest.value.0 && all.value.1 == rest.value.1
  }

  lemma AfterStep(all: Option<(seq<byte>, int)>, done: seq<byte>, more: seq<byte>, rest: Option<(seq<byte>, int)>)
    requires After(all, done, if rest.None? then None else Some((more + rest.value.0, rest.value.1)))
    ensures After(all, done + more, rest)
  {
    if rest.Some? {
      assert done + (more + rest.value.0) == (done + more) + rest.value.0;
    }
  }

  /** One turn of the decoder's outer loop. */
  lemma DecodeStep(text: seq<byte>, i: nat, quad: seq<Six>, done: int, outSize: int, g: Group)
    requires i < |text| && |quad| == 4 && g == ReadGroup(text, Group(i, quad, 0, 0))
    ensures outSize < done + g.len - 1 ==> Decode(text, i, quad, done, outSize) == None
    ensures outSize >= done + g.len - 1 ==>
      var len := Trimmed(text, g);
      var r := Decode(text, g.i, g.quad, done + len - 1, outSize);
      Decode(text, i, quad, done, outSize)
      == if r.None? then None else Some((GroupBytes(g.quad, len) + r.value.0, r.value.1))
  {
  }

  lemma DecodeEnd(text: seq<byte>, quad: seq<Six>, done: int, outSize: int)
    requires |quad| == 4
    ensures Decode(text, |text|, quad, done, outSize) == if done + 1 >= outSize then None else Some(([], done))
  {
  }

  lemma GroupSize(q: seq<Six>, len: int)
    requires |q| == 4 && len <= 4
    ensures |GroupBytes(q, len)| == if len <= 1 then 0 else len - 1
  {
  }
}
