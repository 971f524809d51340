/**
  * The hold-back logic of permessage-deflate. zlib is an opaque producer of output chunks; the extension
  * defers bytes from one call to the next, and no byte is lost, repeated or reordered on the way.
  */
module PmDeflate {
  import opened Bytes

  // ----- sending: the last 5 bytes of each fragment wait for the next one -----

  /** tx_held and tx_held_valid. */
  datatype Tx = Tx(held: seq<byte>, valid: bool)

  /**
    * One LWS_EXT_CB_PAYLOAD_TX: what deflate produced, whether LWS_WRITE_NO_FIN was set, and the exponent of the
    * output size, which is read from the options at every call.
    */
  datatype TxCall = TxCall(out: seq<byte>, noFin: bool, pwr2: nat)

  predicate ValidTx(t: Tx) { |t.held| == 5 }

  function Pending(t: Tx): seq<byte> { if t.valid then t.held else [] }

  function Prepended(t: Tx, out: seq<byte>): seq<byte>
    requires ValidTx(t)
  {
    (if !t.valid then [] else if out == [] then t.held[..1] else t.held) + out
  }

  /** The held bytes afterwards, and the bytes passed on. */
  function TxStep(t: Tx, c: TxCall): (r: (Tx, seq<byte>))
    requires ValidTx(t)
    ensures ValidTx(r.0)
  {
    var all := Prepended(t, c.out);
    var k := if c.noFin || |c.out| == Pow2(c.pwr2) then 5 else 4;
    if |all| >= k then (Tx(all[|all| - k..] + t.held[k..], k == 5), all[..|all| - k])
    else (t.(valid := false), all)
  }

  /** A call that is not the last of its message: the caller says so, or the output was filled. */
  predicate GoesOn(c: TxCall) { c.noFin || |c.out| == Pow2(c.pwr2) }

  /** While more is to come, a call keeps every byte, exactly unless it drops held ones for an empty output. */
  lemma TxKeeps(t: Tx, c: TxCall)
    requires ValidTx(t) && GoesOn(c)
    ensures var (t', sent) := TxStep(t, c);
      sent + Pending(t') == Pending(t) + c.out <==> !(t.valid && c.out == [])
  {
    hide Pow2;
    var (t', sent) := TxStep(t, c);
    var all := Prepended(t, c.out);
    if t.valid && c.out == [] {
      assert |sent + Pending(t')| == 1;
    } else {
      assert all == Pending(t) + c.out;
      if |all| >= 5 {
        assert t'.held == all[|all| - 5..];
        assert all == all[..|all| - 5] + all[|all| - 5..];
      }
    }
  }

  /** `sent` is `all` without its last four bytes, the 00 00 FF FF that section 7.2.1 of RFC 7692 removes. */
  predicate Trimmed(sent: seq<byte>, all: seq<byte>)
  {
    |all| >= 4 && sent == all[..|all| - 4]
  }

  /** The last call of a message trims it, exactly if bytes are held or this output alone has four. */
  lemma TxTrims(t: Tx, c: TxCall)
    requires ValidTx(t) && !GoesOn(c)
    ensures Trimmed(TxStep(t, c).1, Pending(t) + c.out) <==> t.valid || |c.out| >= 4
    ensures !TxStep(t, c).0.valid
  {
    hide Pow2;
    if t.valid && c.out == [] {
      assert Prepended(t, c.out) == t.held[..1];
      assert Pending(t) + c.out == t.held;
    } else {
      assert Prepended(t, c.out) == Pending(t) + c.out;
    }
  }

  function TxRun(t: Tx, calls: seq<TxCall>): (r: (Tx, seq<byte>))
    requires ValidTx(t)
    ensures ValidTx(r.0)
    decreases |calls|
  {
    if calls == [] then (t, [])
    else
      var (t1, a) := TxStep(t, calls[0]);
      var (t2, b) := TxRun(t1, calls[1..]);
      (t2, a + b)
  }

  function Produced(calls: seq<TxCall>): seq<byte>
  {
    if calls == [] then [] else calls[0].out + Produced(calls[1..])
  }

  /** Between the calls of a message, the bytes sent and the 5 held are all that deflate produced. */
  lemma {:induction false} TxConserves(t: Tx, calls: seq<TxCall>)
    requires ValidTx(t)
    requires forall c | c in calls :: GoesOn(c) && c.out != []
    ensures var (t', sent) := TxRun(t, calls);
      && sent + Pending(t') == Pending(t) + Produced(calls)
      && (t.valid || (calls != [] && |calls[0].out| >= 5) ==> t'.valid)
    decreases |calls|
  {
    hide Pow2;
    if calls != [] {
      var (t1, a) := TxStep(t, calls[0]);
      var (t2, b) := TxRun(t1, calls[1..]);
      TxKeeps(t, calls[0]);
      TxConserves(t1, calls[1..]);
      Carry(Pending(t), calls[0].out, a, Pending(t1), Produced(calls[1..]), b, Pending(t2));
    }
  }

  /**
    * A whole message: any number of fragments with output, at least 5 bytes from the first, then the last one,
    * which may produce nothing. What is sent is all that deflate produced, without exactly its last 4 bytes.
    */
  lemma TxMessage(t: Tx, calls: seq<TxCall>, last: TxCall)
    requires ValidTx(t) && !t.valid
    requires forall c | c in calls :: GoesOn(c) && c.out != []
    requires !GoesOn(last)
    requires if calls == [] then |last.out| >= 4 else |calls[0].out| >= 5
    ensures var (t', sent) := TxRun(t, calls + [last]);
      Trimmed(sent, Produced(calls + [last])) && !t'.valid
  {
    hide TxRun, TxStep, Trimmed, Produced, GoesOn;
    var (t1, a) := TxRun(t, calls);
    var (t2, b) := TxStep(t1, last);
    assert [] + Produced(calls) == Produced(calls);
    TxConserves(t, calls);
    TxTrims(t1, last);
    TxRunSnoc(t, calls, last);
    ProducedSnoc(calls, last);
    TrimmedBehind(a, Pending(t1), last.out, b, Produced(calls));
  }

  lemma TrimmedBehind(a: seq<byte>, p: seq<byte>, out: seq<byte>, b: seq<byte>, before: seq<byte>)
    requires a + p == before && Trimmed(b, p + out)
    ensures Trimmed(a + b, before + out)
  {
    assert before + out == a + (p + out);
  }

  lemma {:induction false} TxRunSnoc(t: Tx, calls: seq<TxCall>, last: TxCall)
    requires ValidTx(t)
    ensures var (t1, a) := TxRun(t, calls);
      var (t2, b) := TxStep(t1, last);
      TxRun(t, calls + [last]).0 == t2 && TxRun(t, calls + [last]).1 == a + b
    decreases |calls|
  {
    hide TxStep;
    var all := calls + [last];
    if calls == [] {
      assert all[1..] == [] && all[0] == last;
    } else {
      assert all[1..] == calls[1..] + [last] && all[0] == calls[0];
      TxRunSnoc(TxStep(t, calls[0]).0, calls[1..], last);
    }
  }

  lemma {:induction false} ProducedSnoc(calls: seq<TxCall>, last: TxCall)
    ensures Produced(calls + [last]) == Produced(calls) + last.out
  {
    var all := calls + [last];
    if calls == [] {
      assert all[1..] == [] && all[0] == last;
    } else {
      assert all[1..] == calls[1..] + [last] && all[0] == calls[0];
      ProducedSnoc(calls[1..], last);
    }
  }

  // ----- receiving: a full buffer holds back its last byte -----

  /** rx_held and rx_held_valid, and the input that inflate has not consumed yet. */
  datatype RxState = RxState(held: byte, valid: bool, input: seq<byte>)

  /** One answer of inflate: how much input it took, and what it produced; or an error. */
  datatype Inflated = Inflated(took: nat, out: seq<byte>) | ZError

  /**
    * One LWS_EXT_CB_PAYLOAD_RX: the payload, whether the message ends with it, inflate's answers, and the exponent of
    * the output size, which is read from the options at every call.
    */
  datatype RxCall = RxCall(token: seq<byte>, ends: bool, first: Inflated, trailer: Inflated, pwr2: nat)

  function Cap(c: RxCall): (n: nat)
    ensures n > 0
  {
    Pow2(c.pwr2)
  }

  const TRAIL: seq<byte> := [0, 0, 0xff, 0xff]

  function HeldByte(s: RxState): seq<byte> { if s.valid then [s.held] else [] }

  /** The input of the first inflate: pending input, else the token, else the trailer the sender stripped. */
  function FirstInput(s: RxState, c: RxCall): seq<byte>
  {
    var input := if s.input == [] then c.token else s.input;
    if input == [] && c.ends then TRAIL else input
  }

  /** The trailer was already the input of the first inflate. */
  predicate TrailerFirst(s: RxState, c: RxCall) { s.input == [] && c.token == [] && c.ends }

  function Room(s: RxState, cap: nat): nat
    requires 0 < cap
  {
    if s.valid then cap - 1 else cap
  }

  /** inflate never takes more than it is given nor produces more than there is room for. */
  predicate Answers(z: Inflated, input: seq<byte>, room: nat)
  {
    z.Inflated? ==> z.took <= |input| && |z.out| <= room
  }

  /** The trailer is given to a second inflate: input used up, message ended, room left. */
  predicate TrailerNext(s: RxState, c: RxCall)
  {
    && c.first.Inflated? && c.first.took == |FirstInput(s, c)|
    && c.ends && !TrailerFirst(s, c) && |c.first.out| < Room(s, Cap(c))
  }

  predicate Honest(s: RxState, c: RxCall)
  {
    && Answers(c.first, FirstInput(s, c), Room(s, Cap(c)))
    && (TrailerNext(s, c) ==> Answers(c.trailer, TRAIL, Room(s, Cap(c)) - |c.first.out|))
  }

  /** All that inflate produced during the call, unless it failed. */
  function InflatedBy(s: RxState, c: RxCall): Option<seq<byte>>
  {
    if c.first.ZError? then None
    else if !TrailerNext(s, c) then Some(c.first.out)
    else if c.trailer.ZError? then None
    else Some(c.first.out + c.trailer.out)
  }

  function LeftOver(s: RxState, c: RxCall): seq<byte>
    requires Honest(s, c) && InflatedBy(s, c).Some?
  {
    if TrailerNext(s, c) then TRAIL[c.trailer.took..] else FirstInput(s, c)[c.first.took..]
  }

  /** The state afterwards and the chunk passed up. */
  function RxStep(s: RxState, c: RxCall): (RxState, seq<byte>)
    requires Honest(s, c) && InflatedBy(s, c).Some?
  {
    var all := HeldByte(s) + InflatedBy(s, c).value;
    var input := LeftOver(s, c);
    if |all| == Cap(c) then (RxState(all[Cap(c) - 1], true, input), all[..Cap(c) - 1])
    else (RxState(s.held, false, input), all)
  }

  /** One call: nothing is lost, the chunk stays below the buffer size, and a byte is held exactly when it was full. */
  lemma RxKeeps(s: RxState, c: RxCall)
    requires Honest(s, c) && InflatedBy(s, c).Some?
    ensures var (s', chunk) := RxStep(s, c);
      && chunk + HeldByte(s') == HeldByte(s) + InflatedBy(s, c).value
      && |chunk| < Cap(c)
      && (s'.valid <==> |InflatedBy(s, c).value| == Room(s, Cap(c)))
  {
    hide Pow2;
    var all := HeldByte(s) + InflatedBy(s, c).value;
    if |all| == Cap(c) {
      assert all == all[..Cap(c) - 1] + [all[Cap(c) - 1]];
    }
  }

  /** A run of calls: the chunks and all that was inflated; it stops at an error. */
  function RxRun(s: RxState, calls: seq<RxCall>): (RxState, seq<seq<byte>>, seq<byte>)
    decreases |calls|
  {
    if calls == [] || !Honest(s, calls[0]) || InflatedBy(s, calls[0]).None? then (s, [], [])
    else
      var (s1, chunk) := RxStep(s, calls[0]);
      var (s2, chunks, inflated) := RxRun(s1, calls[1..]);
      (s2, [chunk] + chunks, InflatedBy(s, calls[0]).value + inflated)
  }

  /** Over every run, the bytes delivered and the held byte are all that was inflated, in order. */
  lemma {:induction false} RxConserves(s: RxState, calls: seq<RxCall>)
    ensures var (s', chunks, inflated) := RxRun(s, calls);
      && Flatten(chunks) + HeldByte(s') == HeldByte(s) + inflated
      && |chunks| <= |calls| && forall i | 0 <= i < |chunks| :: |chunks[i]| < Cap(calls[i])
    decreases |calls|
  {
    hide RxStep, InflatedBy, Honest;
    if calls != [] && Honest(s, calls[0]) && InflatedBy(s, calls[0]).Some? {
      var (s1, chunk) := RxStep(s, calls[0]);
      var (s2, chunks, inflated) := RxRun(s1, calls[1..]);
      RxKeeps(s, calls[0]);
      RxConserves(s1, calls[1..]);
      assert ([chunk] + chunks)[1..] == chunks;
      var first := InflatedBy(s, calls[0]).value;
      Carry(HeldByte(s), first, chunk, HeldByte(s1), inflated, Flatten(chunks), HeldByte(s2));
    } else {
      assert Flatten<byte>([]) == [];
    }
  }

  /** What inflate took of its input during the call. */
  function TookBy(s: RxState, c: RxCall): seq<byte>
    requires Honest(s, c) && InflatedBy(s, c).Some?
  {
    FirstInput(s, c)[..c.first.took] + if TrailerNext(s, c) then TRAIL[..c.trailer.took] else []
  }

  /**
    * A call in which the four bytes that the sender removed are put back: the message ends, and either nothing is left
    * to inflate, or this inflate takes all of it and does not fill the output.
    */
  predicate PutsBack(s: RxState, c: RxCall)
  {
    && c.ends && c.first.Inflated?
    && ((s.input == [] && c.token == [])
        || (c.first.took == |if s.input == [] then c.token else s.input|
            && |HeldByte(s)| + |c.first.out| < Pow2(c.pwr2)))
  }

  /** Input is neither lost, repeated nor reordered, exactly if no new token comes while some is pending. */
  lemma RxFeeds(s: RxState, c: RxCall)
    requires Honest(s, c) && InflatedBy(s, c).Some?
    ensures TookBy(s, c) + RxStep(s, c).0.input
         == s.input + c.token + (if PutsBack(s, c) then [0, 0, 0xff, 0xff] else [])
       <==> s.input == [] || c.token == []
  {
    hide Pow2, TookBy, RxStep, PutsBack;
    RxTakes(s, c);
    var back := if PutsBack(s, c) then [0, 0, 0xff, 0xff] else [];
    var all := TookBy(s, c) + RxStep(s, c).0.input;
    if s.input == [] {
      assert s.input + c.token == c.token;
    } else if c.token == [] {
      assert s.input + c.token == s.input;
    } else {
      assert |all| < |s.input + c.token + back|;
    }
  }

  lemma RxTakes(s: RxState, c: RxCall)
    requires Honest(s, c) && InflatedBy(s, c).Some?
    ensures TookBy(s, c) + RxStep(s, c).0.input
         == (if s.input == [] then c.token else s.input) + (if PutsBack(s, c) then [0, 0, 0xff, 0xff] else [])
  {
    hide Pow2;
    var first := FirstInput(s, c);
    assert first == first[..c.first.took] + first[c.first.took..];
    if TrailerNext(s, c) {
      assert TRAIL == TRAIL[..c.trailer.took] + TRAIL[c.trailer.took..];
      assert first[..c.first.took] == first;
      assert TookBy(s, c) + TRAIL[c.trailer.took..] == first + TRAIL;
    } else {
      assert TookBy(s, c) + first[c.first.took..] == first;
    }
  }

  /** Where nothing is pending and no byte held after the end of a message, the four bytes were put back. */
  lemma RxPutBack(s: RxState, c: RxCall)
    requires Honest(s, c) && InflatedBy(s, c).Some? && c.ends
    ensures var s' := RxStep(s, c).0; s'.input == [] && !s'.valid ==> PutsBack(s, c)
  {
    hide Pow2;
    RxKeeps(s, c);
  }

  /** All that was taken over a run of calls, and all that was to be. */
  function TookAll(s: RxState, calls: seq<RxCall>): seq<byte>
    decreases |calls|
  {
    if calls == [] || !Honest(s, calls[0]) || InflatedBy(s, calls[0]).None? then []
    else TookBy(s, calls[0]) + TookAll(RxStep(s, calls[0]).0, calls[1..])
  }

  function Stream(s: RxState, calls: seq<RxCall>): seq<byte>
    decreases |calls|
  {
    if calls == [] || !Honest(s, calls[0]) || InflatedBy(s, calls[0]).None? then []
    else
      calls[0].token + (if PutsBack(s, calls[0]) then [0, 0, 0xff, 0xff] else [])
      + Stream(RxStep(s, calls[0]).0, calls[1..])
  }

  /** No token comes while input is pending. */
  predicate Drained(s: RxState, calls: seq<RxCall>)
    decreases |calls|
  {
    calls == [] || !Honest(s, calls[0]) || InflatedBy(s, calls[0]).None?
    || ((s.input == [] || calls[0].token == []) && Drained(RxStep(s, calls[0]).0, calls[1..]))
  }

  /** Over every run that drains first, inflate has taken the tokens in order, messages completed, but what is left. */
  lemma {:induction false} RxFeedsAll(s: RxState, calls: seq<RxCall>)
    requires Drained(s, calls)
    ensures TookAll(s, calls) + RxRun(s, calls).0.input == s.input + Stream(s, calls)
    decreases |calls|
  {
    hide RxStep, InflatedBy, Honest, PutsBack, TookBy;
    if calls != [] && Honest(s, calls[0]) && InflatedBy(s, calls[0]).Some? {
      var c, s1 := calls[0], RxStep(s, calls[0]).0;
      RxFeeds(s, c);
      RxFeedsAll(s1, calls[1..]);
      var own := c.token + if PutsBack(s, c) then [0, 0, 0xff, 0xff] else [];
      assert s.input + c.token + (if PutsBack(s, c) then [0, 0, 0xff, 0xff] else []) == s.input + own;
      Carry(s.input, own, TookBy(s, c), s1.input, Stream(s1, calls[1..]), TookAll(s1, calls[1..]),
            RxRun(s, calls).0.input);
    }
  }

  // ----- the options that size the buffers -----

  const RX_BUF_PWR2 := 4
  const ARG_COUNT := 8

  function Pow2(n: nat): (p: nat)
    ensures p > n
  {
    if n == 0 then 1 else 2 * Pow2(n - 1)
  }

  lemma {:induction false} Pow2Grows(a: nat, b: nat)
    requires a <= b
    ensures Pow2(a) <= Pow2(b)
    ensures a < b ==> 2 * Pow2(a) <= Pow2(b)
  {
    if a < b {
      Pow2Grows(a, b - 1);
    }
  }

  /** The largest e, at least 7, for which 2 to the e is at most `n`. */
  ghost predicate IsLog(n: nat, e: nat)
  {
    7 <= e && (e > 7 ==> Pow2(e) <= n) && n < Pow2(e + 1)
  }

  lemma LogUnique(n: nat, a: nat, b: nat)
    requires IsLog(n, a) && IsLog(n, b)
    ensures a == b
  {
    if a < b {
      Pow2Grows(a + 1, b);
    } else if b < a {
      Pow2Grows(b + 1, a);
    }
  }

  /** The base-2 logarithm of `n`, rounded down, but at least 7. */
  function Log(n: nat): (e: nat)
    ensures IsLog(n, e)
  {
    assert Pow2(7) == 128;
    if n < 256 then 7
    else
      var half := Log(n / 2);
      assert half == 7 ==> Pow2(8) == 256;
      half + 1
  }

  /** Assignment of an int to an unsigned char. */
  function LowByte(n: int): byte { n % 256 }

  function Min(a: nat, b: nat): nat { if a < b then a else b }

  /** Capped, every setting gives a buffer within `n` bytes, exactly if `n` is the 128 construction demands. */
  lemma CapFits(n: nat)
    ensures (forall arg: byte :: Pow2(Min(arg, Log(n))) <= n) <==> n >= 128
  {
    var e := Log(n);
    assert Pow2(7) == 128;
    if n >= 128 {
      forall arg: byte ensures Pow2(Min(arg, e)) <= n {
        Pow2Grows(Min(arg, e), e);
      }
    } else {
      Pow2Grows(7, Min(255, e));
      var arg: byte := 255;
      assert Pow2(Min(arg, e)) > n;
    }
  }

  /**
    * Whatever options are set between the calls, each chunk that a run of inflate calls delivers is shorter than the
    * rx buffer, as every setting is capped.
    */
  lemma ChunkFits(n: nat, s: RxState, calls: seq<RxCall>)
    requires n >= 128 && forall c | c in calls :: c.pwr2 <= Log(n)
    ensures var (_, chunks, _) := RxRun(s, calls);
      forall i | 0 <= i < |chunks| :: |chunks[i]| < n
  {
    RxConserves(s, calls);
    var (_, chunks, _) := RxRun(s, calls);
    assert Pow2(7) == 128;
    forall i | 0 <= i < |chunks| ensures |chunks[i]| < n {
      assert calls[i] in calls;
      Pow2Grows(calls[i].pwr2, Log(n));
    }
  }

  /** The room that a zlib buffer has behind its prefix, allocated once for the exponent of the first call. */
  function Allocated(pwr2: nat): nat { Pow2(pwr2) + 7 + 5 }

  /**
    * Inflate with a later setting stays within that, and so does deflate, which starts 5 bytes on: exactly if the
    * setting is no larger than the first, or so small that the spare bytes do.
    */
  lemma LaterFits(first: nat, later: nat)
    ensures Pow2(later) <= Allocated(first) <==> later <= first || later <= 3 || (later == 4 && first >= 2)
    ensures 5 + Pow2(later) <= Allocated(first) <==> later <= first || later <= 3
  {
    assert Pow2(0) == 1 && Pow2(1) == 2 && Pow2(2) == 4 && Pow2(3) == 8 && Pow2(4) == 16;
    if later <= first {
      Pow2Grows(later, first);
    } else if later <= 3 {
      Pow2Grows(later, 3);
    } else {
      Pow2Grows(first, later);
      Pow2Grows(4, later);
      if later > 4 {
        Pow2Grows(4, later - 1);
        Pow2Grows(first, later - 1);
        assert Pow2(later) == 2 * Pow2(later - 1);
      }
    }
  }

  // ----- as it is written -----

  datatype OptionOp =
    | Default
    | Set(index: nat, value: Option<int>)    // a value is what atoi makes of the text; none sets 1

  /** The defaults of RFC 7692, and those of the buffers and of zlib. */
  const DEFAULTS: seq<byte> := [0, 0, 15, 15, 10, 10, 1, 8]

  /** The arguments with the exponent of the inflate buffer capped by the rx buffer. */
  function Capped(args: seq<byte>, rxSize: nat): (r: seq<byte>)
    requires |args| == ARG_COUNT
    ensures |r| == ARG_COUNT
  {
    args[RX_BUF_PWR2 := Min(args[RX_BUF_PWR2], Log(rxSize))]
  }

  lemma CappedFits(args: seq<byte>, rxSize: nat)
    requires |args| == ARG_COUNT
    ensures rxSize >= 128 ==> Pow2(Capped(args, rxSize)[RX_BUF_PWR2]) <= rxSize
  {
    CapFits(rxSize);
    var arg := args[RX_BUF_PWR2];
    assert Capped(args, rxSize)[RX_BUF_PWR2] == Min(arg, Log(rxSize));
  }

  /** The arguments an option asks for: the defaults, or one argument changed. */
  function Asked(args: seq<byte>, op: OptionOp): (r: seq<byte>)
    requires |args| == ARG_COUNT && (op.Set? ==> op.index < ARG_COUNT)
    ensures |r| == ARG_COUNT
  {
    match op
    case Default => DEFAULTS
    case Set(index, value) => args[index := if value.Some? then LowByte(value.value) else 1]
  }

  /** The arguments after a run of options, each followed by the cap. */
  function After(args: seq<byte>, ops: seq<OptionOp>, rxSize: nat): (r: seq<byte>)
    requires |args| == ARG_COUNT && forall op | op in ops :: op.Set? ==> op.index < ARG_COUNT
    ensures |r| == ARG_COUNT
  {
    if ops == [] then args
    else
      var k := |ops| - 1;
      assert ops[k] in ops;
      Capped(Asked(After(args, ops[..k], rxSize), ops[k]), rxSize)
  }

  /**
    * What the last of the options that concern argument `i` asks for: 1 where it has no value, else its value as an
    * unsigned char; or the default.
    */
  function LastAsked(ops: seq<OptionOp>, i: nat): (r: Option<byte>)
    requires i < 8
  {
    if ops == [] then None
    else
      match ops[|ops| - 1]
      case Default => Some(if i < 2 then 0 else if i < 4 then 15 else if i < 6 then 10 else if i == 6 then 1 else 8)
      case Set(index, value) =>
        if index != i then LastAsked(ops[..|ops| - 1], i)
        else Some(if value.Some? then value.value % 256 else 1)
  }

  /** The last option decides each argument; the exponent of the inflate buffer is capped besides. */
  lemma {:induction false} LastWins(args: seq<byte>, ops: seq<OptionOp>, rxSize: nat, i: nat)
    requires |args| == 8 && i < 8 && ops != [] && forall op | op in ops :: op.Set? ==> op.index < 8
    ensures var v := LastAsked(ops, i);
      var r := if v.Some? then v.value else args[i];
      After(args, ops, rxSize)[i] == if i == 4 && Log(rxSize) < r then Log(rxSize) else r
    decreases |ops|
  {
    var k := |ops| - 1;
    assert ops[k] in ops;
    if k > 0 {
      LastWins(args, ops[..k], rxSize, i);
    }
  }

  /** The option arguments of one connection whose protocol has an rx buffer of `rxSize` bytes. */
  class Options {
    const args: array<byte>
    const rxSize: nat

    ghost predicate Valid() reads this { args.Length == ARG_COUNT }

    /** The part of LWS_EXT_CB_CONSTRUCT after the test of the rx buffer size. */
    constructor (rxSize: nat)
      ensures Valid() && fresh(args) && this.rxSize == rxSize
      ensures args[..] == Capped(DEFAULTS, rxSize)
    {
      this.rxSize := rxSize;
      args := new byte[ARG_COUNT](_ => 0);
      new;
      SetOption(Default);
    }

    /** LWS_EXT_CB_CONSTRUCT: refused exactly if the rx buffer is below 128 bytes. */
    static method Construct(rxSize: nat) returns (o: Options?)
      ensures o == null <==> rxSize < 128
      ensures o != null ==>
        && fresh(o) && fresh(o.args) && o.Valid() && o.rxSize == rxSize
        && o.args[..] == Capped(DEFAULTS, rxSize) && Pow2(o.args[RX_BUF_PWR2]) <= rxSize
    {
      if rxSize < 128 {
        return null;
      }
      o := new Options(rxSize);
      CappedFits(DEFAULTS, rxSize);
      assert o.args[RX_BUF_PWR2] == o.args[..][RX_BUF_PWR2];
    }

    /** lws_extension_pmdeflate_restrict_args. */
    method RestrictArgs()
      requires Valid()
      modifies args
      ensures args[..] == Capped(old(args[..]), rxSize)
    {
      var extra: nat := 7;
      while rxSize >= Pow2(extra + 1)
        invariant 7 <= extra && (extra > 7 ==> Pow2(extra) <= rxSize) && args[..] == old(args[..])
        decreases rxSize - extra
      {
        extra := extra + 1;
      }
      LogUnique(rxSize, extra, Log(rxSize));
      if extra < args[RX_BUF_PWR2] {
        args[RX_BUF_PWR2] := extra;
      }
    }

    /** LWS_EXT_CB_OPTION_DEFAULT and LWS_EXT_CB_OPTION_SET; an argument is one unsigned char. */
    method SetOption(op: OptionOp)
      requires Valid() && (op.Set? ==> op.index < ARG_COUNT)
      modifies args
      ensures args[..] == Capped(Asked(old(args[..]), op), rxSize)
      ensures rxSize >= 128 ==> Pow2(args[RX_BUF_PWR2]) <= rxSize
    {
      match op {
        case Default =>
          args[0], args[1], args[2], args[3] := 0, 0, 15, 15;
          args[4], args[5], args[6], args[7] := 10, 10, 1, 8;
        case Set(index, value) =>
          args[index] := if value.Some? then LowByte(value.value) else 1;
      }
      ghost var asked := args[..];
      assert asked == Asked(old(args[..]), op);
      RestrictArgs();
      CappedFits(asked, rxSize);
      assert args[RX_BUF_PWR2] == args[..][RX_BUF_PWR2];
    }

    /** Whatever options are set, in whatever order, the inflate buffer stays within the rx buffer. */
    method Negotiate(ops: seq<OptionOp>)
      requires Valid() && rxSize >= 128 && Pow2(args[RX_BUF_PWR2]) <= rxSize
      requires forall op | op in ops :: op.Set? ==> op.index < ARG_COUNT
      modifies args
      ensures Pow2(args[RX_BUF_PWR2]) <= rxSize
      ensures args[..] == After(old(args[..]), ops, rxSize)
    {
      for i := 0 to |ops|
        invariant Pow2(args[RX_BUF_PWR2]) <= rxSize
        invariant args[..] == After(old(args[..]), ops[..i], rxSize)
      {
        assert ops[..i + 1][..i] == ops[..i];
        SetOption(ops[i]);
      }
      assert ops[..|ops|] == ops;
    }
  }

  lemma Ends(buf: seq<byte>, token: nat, next: nat, k: nat)
    requires token + k <= next <= |buf|
    ensures var all := buf[token..next];
      all[|all| - k..] == buf[next - k..next] && all[..|all| - k] == buf[token..next - k]
  {
  }

  /** The held bytes and the output buffers; a deflate buffer keeps 5 bytes free in front of its output. */
  class Priv {
    const txHeld: array<byte>
    var txHeldValid: bool
    const txBuf: array<byte>
    var rxHeld: byte
    var rxHeldValid: bool
    var rxInput: seq<byte>        // next_in, avail_in
    const rxBuf: array<byte>

    ghost predicate Valid()
      reads this
    {
      && txHeld.Length == 5 && txBuf.Length > 5 && rxBuf.Length > 0
      && txHeld != txBuf && txHeld != rxBuf && txBuf != rxBuf
    }

    ghost function TxView(): Tx reads this, txHeld { Tx(txHeld[..], txHeldValid) }

    ghost function RxView(): RxState reads this { RxState(rxHeld, rxHeldValid, rxInput) }

    constructor (txPwr2: nat, rxPwr2: nat)
      ensures Valid() && fresh(txHeld) && fresh(txBuf) && fresh(rxBuf)
      ensures txBuf.Length == Allocated(txPwr2) && rxBuf.Length == Allocated(rxPwr2)
      ensures !TxView().valid && RxView() == RxState(0, false, [])
    {
      txHeld := new byte[5](_ => 0);
      txBuf := new byte[Allocated(txPwr2)](_ => 0);
      rxBuf := new byte[Allocated(rxPwr2)](_ => 0);
      txHeldValid, rxHeld, rxHeldValid, rxInput := false, 0, false, [];
    }

    /** The held bytes go in front of the output; the new start of the token. */
    method PrependHeld(out: seq<byte>) returns (token: nat)
      requires Valid() && 5 + |out| <= txBuf.Length && txBuf[5..5 + |out|] == out
      modifies this`txHeldValid, txBuf
      ensures !txHeldValid && token <= 5 && txBuf[token..5 + |out|] == Prepended(old(TxView()), out)
    {
      token := 5;
      if txHeldValid {
        txHeldValid := false;
        if |out| == 0 {
          token := 4;
          txBuf[4] := txHeld[0];
        } else {
          token := 0;
          CopyInto(txBuf, 0, txHeld[..]);
          assert txBuf[0..5 + |out|] == txBuf[..5] + txBuf[5..][..|out|];
          assert txBuf[5..][..|out|] == out;
        }
      }
    }

    /** LWS_EXT_CB_PAYLOAD_TX, with what deflate produces: the bytes to send, and whether there is more. */
    method PayloadTx(c: TxCall) returns (sent: seq<byte>, more: bool)
      requires Valid() && |c.out| <= Pow2(c.pwr2) && 5 + Pow2(c.pwr2) <= txBuf.Length
      modifies this`txHeldValid, txHeld, txBuf
      ensures var (t, bytes) := TxStep(old(TxView()), c); TxView() == t && sent == bytes
      ensures more == (|c.out| == Pow2(c.pwr2))
    {
      hide Prepended, Pow2;
      CopyInto(txBuf, 5, c.out);
      assert txBuf[5..5 + |c.out|] == txBuf[..5 + |c.out|][5..] == c.out;
      var nextOut := 5 + |c.out|;
      more := nextOut == 5 + Pow2(c.pwr2);
      var token := PrependHeld(c.out);
      var len := Defer(token, nextOut, if c.noFin || more then 5 else 4);
      sent := txBuf[token..token + len];
      Ends(txBuf[..], token, nextOut, nextOut - token - len);
      assert txBuf[..][token..nextOut] == txBuf[token..nextOut] && txBuf[..][token..token + len] == sent;
    }

    /** All that is to go out, from `token` on, is held back from its `k`-th last byte on, if it has as many. */
    method Defer(token: nat, nextOut: nat, k: nat) returns (len: nat)
      requires Valid() && !txHeldValid && token <= nextOut <= txBuf.Length && (k == 4 || k == 5)
      modifies this`txHeldValid, txHeld
      ensures var all := txBuf[token..nextOut];
        if |all| >= k
        then len == |all| - k && TxView() == Tx(all[len..] + old(txHeld[..])[k..], k == 5)
        else len == |all| && TxView() == old(TxView())
    {
      len := nextOut - token;
      if len >= k {
        txHeldValid := k == 5;
        Ends(txBuf[..], token, nextOut, k);
        assert old(txHeld[..])[k..] == old(txHeld[k..]);
        Hold(k, nextOut);
        len := len - k;
      }
    }

    /** The last `k` bytes before `nextOut` are held. */
    method Hold(k: nat, nextOut: nat)
      requires Valid() && k <= 5 && k <= nextOut <= txBuf.Length
      modifies txHeld
      ensures txHeld[..] == txBuf[nextOut - k..nextOut] + old(txHeld[k..])
    {
      var n := k;
      while n > 0
        invariant 0 <= n <= k
        invariant forall j | n <= j < k :: txHeld[j] == txBuf[nextOut - k + j]
        invariant forall j | 0 <= j < 5 && !(n <= j < k) :: txHeld[j] == old(txHeld[j])
      {
        n := n - 1;
        txHeld[n] := txBuf[nextOut - k + n];
      }
    }

    /**
      * LWS_EXT_CB_PAYLOAD_RX on a compressed message: the chunk to pass up, and -1 for a zlib error,
      * 1 if a byte is held back, else 0.
      */
    method PayloadRx(c: RxCall) returns (chunk: seq<byte>, ret: int)
      requires Valid() && Cap(c) <= rxBuf.Length && Honest(RxView(), c)
      modifies this`rxHeld, this`rxHeldValid, this`rxInput, rxBuf
      ensures ret == -1 <==> InflatedBy(old(RxView()), c).None?
      ensures ret != -1 ==>
        var (s, bytes) := RxStep(old(RxView()), c);
        RxView() == s && chunk == bytes && ret == (if s.valid then 1 else 0)
    {
      chunk := [];
      var ok, nextOut := Inflate(c);
      if !ok {
        return chunk, -1;
      }
      ghost var all := rxBuf[..nextOut];
      if nextOut == Cap(c) {
        nextOut := nextOut - 1;
        rxHeld := rxBuf[nextOut];
        rxHeldValid := true;
      }
      chunk := rxBuf[..nextOut];
      assert chunk == all[..nextOut];
      ret := if rxHeldValid then 1 else 0;
    }

    /** Up to the last inflate: the held byte and what was inflated are in the buffer, up to `nextOut`. */
    method Inflate(c: RxCall) returns (ok: bool, nextOut: nat)
      requires Valid() && Cap(c) <= rxBuf.Length && Honest(RxView(), c)
      modifies this`rxHeldValid, this`rxInput, rxBuf
      ensures ok == InflatedBy(old(RxView()), c).Some?
      ensures ok ==>
        && nextOut <= Cap(c) && !rxHeldValid
        && rxBuf[..nextOut] == HeldByte(old(RxView())) + InflatedBy(old(RxView()), c).value
        && rxInput == LeftOver(old(RxView()), c)
    {
      hide Pow2;
      ghost var was := RxView();
      var wasFin;
      wasFin, nextOut := Prepare(c);
      if c.first.ZError? {
        return false, nextOut;
      }
      nextOut := Append(nextOut, c.first.out);
      rxInput := rxInput[c.first.took..];
      assert nextOut < Cap(c) <==> |c.first.out| < Room(was, Cap(c));
      ok := true;
      if |rxInput| == 0 && c.ends && !wasFin && nextOut < Cap(c) {
        if c.trailer.ZError? {
          return false, nextOut;
        }
        nextOut := Append(nextOut, c.trailer.out);
        rxInput := TRAIL[c.trailer.took..];
        assert HeldByte(was) + c.first.out + c.trailer.out == HeldByte(was) + (c.first.out + c.trailer.out);
      }
    }

    /** inflate writes its output. */
    method Append(nextOut: nat, out: seq<byte>) returns (end: nat)
      requires nextOut + |out| <= rxBuf.Length
      modifies rxBuf
      ensures end == nextOut + |out| && rxBuf[..end] == old(rxBuf[..nextOut]) + out
    {
      CopyInto(rxBuf, nextOut, out);
      end := nextOut + |out|;
    }

    /** Input and output are set up: the held byte first in the buffer, and the input chosen. */
    method Prepare(c: RxCall) returns (wasFin: bool, nextOut: nat)
      requires Valid()
      modifies this`rxHeldValid, this`rxInput, rxBuf
      ensures !rxHeldValid && nextOut <= 1 && rxBuf[..nextOut] == HeldByte(old(RxView()))
      ensures rxInput == FirstInput(old(RxView()), c) && wasFin == TrailerFirst(old(RxView()), c)
    {
      wasFin, nextOut := false, 0;
      if |rxInput| == 0 && |c.token| > 0 {
        rxInput := c.token;
      }
      if rxHeldValid {
        rxBuf[0] := rxHeld;
        nextOut := 1;
        rxHeldValid := false;
      }
      if |rxInput| == 0 && c.ends {
        wasFin := true;
        rxInput := TRAIL;
      }
    }
  }
}
