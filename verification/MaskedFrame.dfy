/** Frames with the mask bit set, which section 5.1 of RFC 6455 does not let a server send: length and content. */
module MaskedFrame {
  import opened Bytes
  import opened ClientRx
  import opened Delivery
  import Masks

  /** The length bytes with the mask bit set. */
  function MaskedLength(f: Frame): seq<byte>
    requires ValidFrame(f)
  {
    var n := LengthBytes(f);
    [n[0] as int + 128] + n[1..]
  }

  function Masked(rx: Rx): Rx { rx.(masking := rx.masking.(on := true)) }

  /** What is taken for the length: in the short form, with the mask bit in it. */
  function TakenLength(f: Frame): nat { if f.form.Short? then |f.payload| + 128 else |f.payload| }

  /** The length of a masked frame is taken right exactly if it is not in the short form. */
  lemma MaskedLengthRun(cfg: Cfg, w: Ws, f: Frame, env: Env)
    requires ValidCtl(w.ctl) && !w.ctl.unusable && ValidFrame(f)
    requires w.rx.parse.HdrLen? && w.rx.head.opcode == f.opcode
    requires !IsControl(f) || f.form.Short?
    ensures var o := Run(cfg, w, MaskedLength(f), env);
      && o == Continue(w, Masked(w.rx).(parse := Key(1), packetLength := TakenLength(f)))
      && (o.ws.rx.packetLength == |f.payload| <==> !f.form.Short?)
  {
    var n := |f.payload|;
    match f.form
    case Short =>
      OneStep(cfg, w, n + 128, env);
      assert LengthBytes(f)[1..] == [];
      assert MaskedLength(f) == [n + 128];
    case Ext16 =>
      assert LengthBytes(f)[1..] == [n / 256, n % 256];
      Masked16(cfg, w, n, env);
    case Ext64 =>
      Pow256Values();
      assert LengthBytes(f)[1..] == BigEndian(n, 8);
      Masked64(cfg, w, n, env);
  }

  lemma Masked16(cfg: Cfg, w: Ws, n: nat, env: Env)
    requires ValidCtl(w.ctl) && !w.ctl.unusable && w.rx.parse.HdrLen? && w.rx.head.opcode < 8 && n < 0x1_0000
    ensures Run(cfg, w, [254] + [n / 256, n % 256], env)
         == Continue(w, Masked(w.rx).(parse := Key(1), packetLength := n))
  {
    hide Run;
    var hi: byte, lo: byte := n / 256, n % 256;
    var rx1 := Masked(w.rx).(parse := Len16Hi);
    var rx2 := rx1.(packetLength := hi * 256, parse := Len16Lo);
    assert Step(cfg, w, 254, env) == Continue(w, rx1);
    FirstStep(cfg, w, 254, [hi, lo], rx1, env);
    assert [hi, lo] == [hi] + [lo];
    assert Step(cfg, w.(rx := rx1), hi, env) == Continue(w, rx2);
    FirstStep(cfg, w.(rx := rx1), hi, [lo], rx2, env);
    OneStep(cfg, w.(rx := rx2), lo, env);
    assert Step(cfg, w.(rx := rx2), lo, env) == Continue(w, rx2.(packetLength := n, parse := Key(1)));
  }

  lemma Masked64(cfg: Cfg, w: Ws, n: nat, env: Env)
    requires ValidCtl(w.ctl) && !w.ctl.unusable && w.rx.parse.HdrLen? && w.rx.head.opcode < 8
    requires n < 0x8000_0000_0000_0000 < Pow256(8)
    ensures Run(cfg, w, [255] + BigEndian(n, 8), env)
         == Continue(w, Masked(w.rx).(parse := Key(1), packetLength := n))
  {
    hide Run, BigEndian;
    var w1 := w.(rx := Masked(w.rx).(parse := Len64(8)));
    assert Step(cfg, w, 255, env) == Continue(w, w1.rx);
    FirstStep(cfg, w, 255, BigEndian(n, 8), w1.rx, env);
    Length64Top(cfg, w1, n, env);
  }

  // ----- the mask and the payload -----

  /** The byte of the mask that meets payload byte `i`: the index goes on from where it was. */
  function KeyAt(m: Masking, i: nat): byte
    requires |m.key| == 4
  {
    m.key[(m.idx as int + i) % 4]
  }

  /** What is stored for payload bytes that arrive masked. */
  function Stored(m: Masking, part: seq<byte>): seq<byte>
    requires |m.key| == 4
  {
    if m.allZero then part else seq(|part|, i requires 0 <= i < |part| => Xor(part[i], KeyAt(m, i)))
  }

  function Advanced(m: Masking, n: nat): Masking { if m.allZero then m else m.(idx := (m.idx as int + n) % 256) }

  /** `part` was taken since `w`, and none of it passed on. */
  predicate Waiting(w: Ws, part: seq<byte>, o: Outcome)
    requires |w.rx.masking.key| == 4
  {
    && o.ret == 0 && o.events == [] && o.ws.ctl == w.ctl && |part| <= w.rx.packetLength
    && o.ws.rx == w.rx.(packetLength := w.rx.packetLength - |part|, masking := Advanced(w.rx.masking, |part|),
                        ubuf := w.rx.ubuf + Stored(w.rx.masking, part))
  }

  lemma MaskedStep(cfg: Cfg, w: Ws, c: byte, env: Env)
    requires ValidCtl(w.ctl) && !w.ctl.unusable && w.rx.parse.Payload? && w.rx.masking.on && |w.rx.masking.key| == 4
    requires 1 < w.rx.packetLength && |w.rx.ubuf| + 1 < cfg.bufSize
    ensures Waiting(w, [c], Step(cfg, w, c, env))
  {
    hide Xor, Spill;
    var m := w.rx.masking;
    assert Stored(m, [c]) == [if m.allZero then c else Xor(c, m.key[m.idx % 4])];
  }

  lemma {:induction false} MaskedBuffer(cfg: Cfg, w: Ws, part: seq<byte>, env: Env)
    requires ValidCtl(w.ctl) && !w.ctl.unusable && w.rx.parse.Payload? && w.rx.masking.on && |w.rx.masking.key| == 4
    requires |part| < w.rx.packetLength && |w.rx.ubuf| + |part| < cfg.bufSize
    ensures Waiting(w, part, Run(cfg, w, part, env))
    decreases |part|
  {
    hide Xor, Step;
    if part == [] {
      assert Stored(w.rx.masking, part) == [] && w.rx.ubuf + [] == w.rx.ubuf;
    } else {
      MaskedStep(cfg, w, part[0], env);
      var o := Step(cfg, w, part[0], env);
      WaitingLength(w, part[0], o);
      hide Waiting;
      MaskedBuffer(cfg, o.ws, part[1..], env);
      var r := Run(cfg, o.ws, part[1..], env);
      assert part == [part[0]] + part[1..];
      WaitingTwice(w, [part[0]], part[1..], o, r);
    }
  }

  lemma WaitingLength(w: Ws, c: byte, o: Outcome)
    requires |w.rx.masking.key| == 4 && Waiting(w, [c], o)
    ensures o.ret == 0 && o.ws.ctl == w.ctl && o.ws.rx.parse == w.rx.parse && |o.ws.rx.ubuf| == |w.rx.ubuf| + 1
    ensures o.ws.rx.masking.on == w.rx.masking.on && |o.ws.rx.masking.key| == 4
    ensures o.ws.rx.packetLength == w.rx.packetLength - 1
  {
  }

  lemma WaitingTwice(w: Ws, a: seq<byte>, b: seq<byte>, o: Outcome, r: Outcome)
    requires |w.rx.masking.key| == 4 && Waiting(w, a, o) && |o.ws.rx.masking.key| == 4 && Waiting(o.ws, b, r)
    ensures Waiting(w, a + b, Outcome(r.ws, o.events + r.events, r.ret))
  {
    hide Stored;
    var m := w.rx.masking;
    StoredSplit(m, a, b);
    assert w.rx.ubuf + Stored(m, a) + Stored(Advanced(m, |a|), b) == w.rx.ubuf + Stored(m, a + b);
  }

  lemma StoredSplit(m: Masking, a: seq<byte>, b: seq<byte>)
    requires |m.key| == 4
    ensures Stored(m, a + b) == Stored(m, a) + Stored(Advanced(m, |a|), b)
    ensures Advanced(Advanced(m, |a|), |b|) == Advanced(m, |a + b|)
  {
    hide Xor, KeyAt;
    Wraps(m.idx as int + |a|, |b|);
    if !m.allZero {
      forall i | 0 <= i < |b| ensures KeyAt(Advanced(m, |a|), i) == KeyAt(m, |a| + i) {
        KeyOn(m, |a|, i);
      }
    }
  }

  lemma KeyOn(m: Masking, n: nat, i: nat)
    requires |m.key| == 4 && !m.allZero
    ensures KeyAt(Advanced(m, n), i) == KeyAt(m, n + i)
  {
    Wraps(m.idx as int + n, i);
  }

  lemma Wraps(x: nat, i: nat)
    ensures (x % 256 + i) % 4 == (x + i) % 4 && (x % 256 + i) % 256 == (x + i) % 256
  {
    var q, r := x / 256, x % 256;
    assert x == 256 * q + r;
    Mod4(r + i, 64 * q);
    Mod256(r + i, q);
  }

  lemma Mod4(a: nat, q: nat)
    ensures (a + 4 * q) % 4 == a % 4
  {
  }

  lemma Mod256(a: nat, q: nat)
    ensures (a + 256 * q) % 256 == a % 256
  {
  }

  /** The mask of a frame. */
  lemma KeyRun(cfg: Cfg, w: Ws, key: Key, env: Env)
    requires ValidCtl(w.ctl) && !w.ctl.unusable && w.rx.parse == Key(1) && w.rx.packetLength > 0
    requires |w.rx.masking.key| == 4
    ensures Run(cfg, w, key, env) == Continue(w, w.rx.(parse := Payload, masking := w.rx.masking.(
              key := key, allZero := w.rx.masking.allZero && key == [0, 0, 0, 0])))
  {
    hide Run, ZerosFrom;
    assert key[0..] == key && w.rx.masking.key[..0] == key[..0];
    KeyFrom(cfg, w, key, 1, env);
    AllZeros(key);
  }

  predicate ZerosFrom(key: Key, n: nat) { forall i | n <= i < 4 :: key[i] == 0 }

  lemma AllZeros(key: Key)
    ensures ZerosFrom(key, 0) <==> key == [0, 0, 0, 0]
  {
  }

  lemma {:induction false} KeyFrom(cfg: Cfg, w: Ws, key: Key, n: nat, env: Env)
    requires ValidCtl(w.ctl) && !w.ctl.unusable && w.rx.packetLength > 0 && |w.rx.masking.key| == 4
    requires 1 <= n <= 4 && w.rx.parse == Key(n) && w.rx.masking.key[..n - 1] == key[..n - 1]
    ensures Run(cfg, w, key[n - 1..], env) == Continue(w, w.rx.(parse := Payload, masking := w.rx.masking.(
              key := key, allZero := w.rx.masking.allZero && ZerosFrom(key, n - 1))))
    decreases 4 - n
  {
    hide Step, Run;
    var w1 := KeyStep(cfg, w, key[n - 1], env);
    var k := w1.rx.masking.key;
    assert k[..n] == key[..n] by { assert k[..n - 1] == key[..n - 1] && k[n - 1] == key[n - 1]; }
    assert key[n - 1..] == [key[n - 1]] + key[n..];
    FirstStep(cfg, w, key[n - 1], key[n..], w1.rx, env);
    if n < 4 {
      KeyFrom(cfg, w1, key, n + 1, env);
    } else {
      assert k == k[..4] && key == key[..4] && key[4..] == [];
      EmptyRun(cfg, w1, env);
    }
  }

  lemma KeyStep(cfg: Cfg, w: Ws, c: byte, env: Env) returns (w': Ws)
    requires ValidCtl(w.ctl) && !w.ctl.unusable && w.rx.packetLength > 0 && |w.rx.masking.key| == 4
    requires w.rx.parse.Key? && 1 <= w.rx.parse.n <= 4
    ensures var n, m := w.rx.parse.n, w.rx.masking;
      w' == w.(rx := w.rx.(parse := if n < 4 then Key(n + 1) else Payload,
                           masking := m.(key := m.key[n - 1 := c], allZero := m.allZero && c == 0)))
    ensures Step(cfg, w, c, env) == Continue(w, w'.rx)
  {
    w' := Step(cfg, w, c, env).ws;
  }

  // ----- a whole masked frame -----

  /** The frame with `wire` in the place of its payload. */
  function MaskedBytes(f: Frame, key: Key, wire: seq<byte>): seq<byte>
    requires ValidFrame(f)
  {
    [FirstByte(f)] + (MaskedLength(f) + (key + wire))
  }

  /** The masking fields once the mask is in. */
  function Keyed(rx: Rx, key: Key): Masking
  {
    rx.masking.(on := true, key := key, allZero := rx.masking.allZero && key == [0, 0, 0, 0])
  }

  /** The header and the mask of a frame. */
  lemma MaskedHead(cfg: Cfg, w: Ws, inbox: Inbox, f: Frame, key: Key, wire: seq<byte>, env: Env) returns (w': Ws)
    requires Between(cfg, w, inbox) && ValidFrame(f) && HeadAllowed(inbox.open.Some?, f) && |w.rx.masking.key| == 4
    requires (f.form.Short? || |f.payload| > 0) && (!IsControl(f) || f.form.Short?)
    ensures w' == w.(rx := HeadTaken(cfg, w.rx, f).(parse := Payload, packetLength := TakenLength(f),
                                                    masking := Keyed(w.rx, key)))
    ensures Run(cfg, w, MaskedBytes(f, key, wire), env) == Run(cfg, w', wire, env)
  {
    hide Step, Run, FirstByte, MaskedLength;
    var w1 := w.(rx := HeadTaken(cfg, w.rx, f));
    HeadStep(cfg, w, inbox, f, env);
    FirstStep(cfg, w, FirstByte(f), MaskedLength(f) + (key + wire), w1.rx, env);
    MaskedLengthRun(cfg, w1, f, env);
    RunConcat(cfg, w1, MaskedLength(f), key + wire, env);
    var w2 := Run(cfg, w1, MaskedLength(f), env).ws;
    KeyRun(cfg, w2, key, env);
    RunConcat(cfg, w2, key, wire, env);
    w' := Run(cfg, w2, key, env).ws;
    var r := Run(cfg, w', wire, env);
    assert [] + ([] + r.events) == r.events;
  }

  /** After all bytes of a masked frame in the short form, the machine waits for 128 more, with nothing passed on. */
  lemma ShortMaskedFrame(cfg: Cfg, w: Ws, inbox: Inbox, f: Frame, key: Key, env: Env)
    requires Between(cfg, w, inbox) && ValidFrame(f) && HeadAllowed(inbox.open.Some?, f) && |w.rx.masking.key| == 4
    requires f.form.Short? && |f.payload| < cfg.bufSize
    ensures var o := Run(cfg, w, MaskedBytes(f, key, f.payload), env);
      o.ret == 0 && o.events == [] && o.ws.rx.parse.Payload? && o.ws.rx.packetLength == 128
  {
    hide Step, Run, MaskedBytes;
    var w1 := MaskedHead(cfg, w, inbox, f, key, f.payload, env);
    MaskedBuffer(cfg, w1, f.payload, env);
  }

  lemma MaskedEnd(cfg: Cfg, w: Ws, c: byte, env: Env)
    requires ValidCtl(w.ctl) && !w.ctl.unusable && w.rx.parse.Payload? && w.rx.masking.on && |w.rx.masking.key| == 4
    requires w.rx.packetLength == 1
    ensures Step(cfg, w, c, env)
         == Spill(cfg, w.(rx := w.rx.(parse := New, packetLength := 0, masking := Advanced(w.rx.masking, 1),
                                      ubuf := w.rx.ubuf + Stored(w.rx.masking, [c]))), env)
  {
    hide Xor, Spill;
    var m := w.rx.masking;
    assert Stored(m, [c]) == [if m.allZero then c else Xor(c, m.key[m.idx % 4])];
  }

  /** A masked data frame in a long form that fits the rx buffer is passed on whole, unmasked as `Stored` says. */
  lemma LongMaskedFrame(cfg: Cfg, w: Ws, inbox: Inbox, f: Frame, key: Key, wire: seq<byte>, env: Env)
    requires Between(cfg, w, inbox) && ValidFrame(f) && HeadAllowed(inbox.open.Some?, f) && |w.rx.masking.key| == 4
    requires !IsControl(f) && !f.form.Short? && |wire| == |f.payload| && 0 < |f.payload| <= cfg.bufSize
    ensures var m := Keyed(w.rx, key);
      Run(cfg, w, MaskedBytes(f, key, wire), env)
      == Spill(cfg, w.(rx := HeadTaken(cfg, w.rx, f).(
           parse := New, packetLength := 0, masking := Advanced(m, |wire|), ubuf := Stored(m, wire))), env)
  {
    hide Step, Run, MaskedBytes, Xor, Spill;
    var m, k := Keyed(w.rx, key), |wire| - 1;
    var w1 := MaskedHead(cfg, w, inbox, f, key, wire, env);
    assert wire == wire[..k] + [wire[k]];
    MaskedBuffer(cfg, w1, wire[..k], env);
    RunConcat(cfg, w1, wire[..k], [wire[k]], env);
    var w2 := Run(cfg, w1, wire[..k], env).ws;
    OneStep(cfg, w2, wire[k], env);
    MaskedEnd(cfg, w2, wire[k], env);
    StoredSplit(m, wire[..k], [wire[k]]);
    assert [] + Stored(m, wire[..k]) + Stored(Advanced(m, k), [wire[k]]) == Stored(m, wire);
    var o := Step(cfg, w2, wire[k], env);
    assert [] + o.events == o.events;
  }

  /**
    * The payload of a frame masked by section 5.3 of RFC 6455 is stored right, exactly if the index that the machine
    * never resets finds the mask the same on it as an index of zero would.
    */
  lemma StoredRight(m: Masking, payload: seq<byte>)
    requires |m.key| == 4 && (m.allZero ==> m.key == [0, 0, 0, 0])
    ensures Stored(m, Mask(payload, m.key)) == payload
       <==> forall i | 0 <= i < |payload| :: KeyAt(m, i) == m.key[i % 4]
  {
    hide Xor;
    var got := Stored(m, Mask(payload, m.key));
    forall i | 0 <= i < |payload| ensures got[i] == payload[i] <==> KeyAt(m, i) == m.key[i % 4] {
      XorTwice(payload[i], m.key[i % 4], KeyAt(m, i));
    }
    if got == payload {
      forall i | 0 <= i < |payload| ensures KeyAt(m, i) == m.key[i % 4] {
        assert got[i] == payload[i];
      }
    }
  }

  /** An index that is a multiple of four is as good as zero. */
  lemma IndexStarts(m: Masking, i: nat)
    requires |m.key| == 4 && m.idx % 4 == 0
    ensures KeyAt(m, i) == m.key[i % 4]
  {
    Mod4(i, m.idx / 4);
  }

  /** One byte of another masked frame before it is enough to store a payload wrong. */
  lemma StoredWrong(m: Masking)
    requires m.key == [1, 2, 3, 4] && m.idx == 1 && !m.allZero
    ensures Stored(m, Mask([0], m.key)) != [0]
  {
    StoredRight(m, [0]);
    assert KeyAt(m, 0) == 2;
  }

  lemma XorTwice(a: byte, b: byte, c: byte)
    ensures Xor(Xor(a, b), c) == a <==> b == c
    ensures Xor(a, 0) == a
  {
    Masks.XorKeeps(a, b);
    Masks.XorKeeps(a, 0);
    Masks.XorCancels(Xor(a, b), b, c);
  }
}
