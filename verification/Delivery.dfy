/**
  * What the client receive machine delivers: for every sequence of frames, whatever their
  * fragmentation, their length forms, the rx buffer size and the split into pieces, the machine accepts
  * exactly the sequences that section 5.4 of RFC 6455 allows and whose text is UTF-8, and the
  * callbacks reassemble to exactly the messages sent.
  */
module Delivery {
  import opened Bytes
  import opened ClientRx
  import Utf8

  // ----- frames on the wire (section 5.2 of RFC 6455, unmasked) -----

  datatype LengthForm = Short | Ext16 | Ext64

  datatype Frame = Frame(fin: bool, rsv: nat, opcode: nat, form: LengthForm, payload: seq<byte>)

  predicate ValidFrame(f: Frame)
  {
    && f.rsv < 8
    && f.opcode < 16
    && match f.form
       case Short => |f.payload| < 126
       case Ext16 => |f.payload| < 0x1_0000
       case Ext64 => |f.payload| < 0x8000_0000_0000_0000
  }

  predicate IsControl(f: Frame) { f.opcode >= 8 }

  function FirstByte(f: Frame): byte
    requires ValidFrame(f)
  {
    (if f.fin then 128 else 0) + f.rsv * 16 + f.opcode
  }

  /** `k` bytes of `n`, most significant first. */
  function BigEndian(n: nat, k: nat): (r: seq<byte>)
    requires n < Pow256(k)
    ensures |r| == k
  {
    if k == 0 then []
    else
      DigitBound(n, Pow256(k - 1));
      [n / Pow256(k - 1)] + BigEndian(n % Pow256(k - 1), k - 1)
  }

  lemma DigitBound(n: nat, p: nat)
    requires 0 < p && n < 256 * p
    ensures 0 <= n / p < 256 && n % p < p && n == n / p * p + n % p
  {
  }

  lemma Pow256Values()
    ensures Pow256(1) == 256
    ensures Pow256(2) == 0x1_0000
    ensures Pow256(7) == 0x100_0000_0000_0000
    ensures Pow256(8) == 0x1_0000_0000_0000_0000
  {
    assert Pow256(4) == 0x1_0000_0000;
  }

  function LengthBytes(f: Frame): seq<byte>
    requires ValidFrame(f)
  {
    Pow256Values();
    var n := |f.payload|;
    match f.form
    case Short => [n]
    case Ext16 => [126] + [n / 256, n % 256]
    case Ext64 => [127] + BigEndian(n, 8)
  }

  function Encode(f: Frame): seq<byte>
    requires ValidFrame(f)
  {
    [FirstByte(f)] + (LengthBytes(f) + f.payload)
  }

  function EncodeAll(fs: seq<Frame>): seq<byte>
    requires forall f | f in fs :: ValidFrame(f)
  {
    if fs == [] then [] else Encode(fs[0]) + EncodeAll(fs[1..])
  }

  // ----- messages (section 5.4 of RFC 6455) -----

  datatype Message = Message(binary: bool, payload: seq<byte>)

  /** The message under way, if any, the completed ones, and the payloads of the PING and PONG frames in between. */
  datatype Inbox = Inbox(open: Option<Message>, done: seq<Message>, pings: seq<seq<byte>>, pongs: seq<seq<byte>>)

  /** A frame that section 5.4 allows next, after `open` says whether a message is under way. */
  predicate Allowed(open: bool, f: Frame)
  {
    && f.rsv == 0
    && f.opcode in {0, 1, 2, 8, 9, 10}
    && (IsControl(f) ==> f.fin && f.form.Short?)
    && (f.opcode == 0 ==> open)
    && (f.opcode == 1 || f.opcode == 2 ==> !open)
  }

  predicate AllowedSequence(open: bool, fs: seq<Frame>)
    decreases |fs|
  {
    fs == [] || (Allowed(open, fs[0]) &&
                 AllowedSequence(if IsControl(fs[0]) then open else !fs[0].fin, fs[1..]))
  }

  /** The message that a data frame starts or continues, with the frame's payload added. */
  function Extended(open: Option<Message>, f: Frame): Message
  {
    if f.opcode == 0 && open.Some?
    then Message(open.value.binary, open.value.payload + f.payload)
    else Message(f.opcode == 2, f.payload)
  }

  function Append(inbox: Inbox, m: Message, complete: bool): Inbox
  {
    if complete then inbox.(open := None, done := inbox.done + [m]) else inbox.(open := Some(m))
  }

  function AddControl(inbox: Inbox, opcode: nat, payload: seq<byte>): Inbox
  {
    if opcode == 9 then inbox.(pings := inbox.pings + [payload])
    else if opcode == 10 then inbox.(pongs := inbox.pongs + [payload])
    else inbox
  }

  function Feed(inbox: Inbox, f: Frame): Inbox
  {
    if IsControl(f) then AddControl(inbox, f.opcode, f.payload) else Append(inbox, Extended(inbox.open, f), f.fin)
  }

  function FeedAll(inbox: Inbox, fs: seq<Frame>): Inbox
    decreases |fs|
  {
    if fs == [] then inbox else FeedAll(Feed(inbox, fs[0]), fs[1..])
  }

  /** The text of a message is UTF-8 when it is complete, and could become UTF-8 until then. */
  ghost predicate TextOk(m: Message, complete: bool)
  {
    m.binary || if complete then Utf8.WellFormed(m.payload) else Utf8.Viable(m.payload)
  }

  ghost predicate Acceptable(cfg: Cfg, inbox: Inbox, f: Frame)
  {
    && Allowed(inbox.open.Some?, f)
    && (cfg.validateUtf8 && !IsControl(f) ==> TextOk(Extended(inbox.open, f), f.fin))
  }

  ghost predicate AcceptableAll(cfg: Cfg, inbox: Inbox, fs: seq<Frame>)
    decreases |fs|
  {
    fs == [] || (Acceptable(cfg, inbox, fs[0]) && AcceptableAll(cfg, Feed(inbox, fs[0]), fs[1..]))
  }

  /** What the user's callbacks collect: chunks are joined, and cut where lws_is_final_fragment holds. */
  function Collect(inbox: Inbox, events: seq<Event>): Inbox
    decreases |events|
  {
    if events == [] then inbox
    else
      var inbox' := match events[0]
        case Receive(data, binary, finalFragment) =>
          var before := if inbox.open.Some? then inbox.open.value.payload else [];
          Append(inbox, Message(binary, before + data), finalFragment)
        case ReceivePing(data) => AddControl(inbox, 9, data)
        case ReceivePong(data) => AddControl(inbox, 10, data)
        case _ => inbox;
      Collect(inbox', events[1..])
  }

  // ----- the connection between two frames -----

  /** The machine of an established connection is between frames, with `inbox` received so far. */
  predicate Boundary(cfg: Cfg, w: Ws, inbox: Inbox) { Between(cfg, w, inbox) && w.ctl.conn.Established? }

  predicate Between(cfg: Cfg, w: Ws, inbox: Inbox)
  {
    var rx := w.rx;
    && ValidCtl(w.ctl)
    && !w.ctl.unusable
    && rx.parse.New?
    && rx.ubuf == []
    && rx.head.continuationPossible == rx.head.owedAFin == inbox.open.Some?
    && (inbox.open.Some? ==>
          var m := inbox.open.value;
          && rx.head.frameIsBinary == m.binary
          && rx.text.check == (cfg.validateUtf8 && !m.binary)
          && (rx.text.check ==> Utf8.Scan(0, m.payload) == Some(rx.text.state)))
  }

  // ----- running the machine -----

  function Then(o: Outcome, r: Outcome): Outcome
  {
    if o.ret != 0 then o else Outcome(r.ws, o.events + r.events, r.ret)
  }

  lemma {:induction false} RunConcat(cfg: Cfg, w: Ws, a: seq<byte>, b: seq<byte>, env: Env)
    requires ValidCtl(w.ctl)
    ensures Run(cfg, w, a + b, env) == Then(Run(cfg, w, a, env), Run(cfg, Run(cfg, w, a, env).ws, b, env))
    decreases |a|
  {
    if a == [] {
      assert a + b == b;
      assert [] + Run(cfg, w, b, env).events == Run(cfg, w, b, env).events;
    } else {
      assert (a + b)[1..] == a[1..] + b;
      var o := Step(cfg, w, a[0], env);
      if o.ret == 0 {
        RunConcat(cfg, o.ws, a[1..], b, env);
        var r := Run(cfg, o.ws, a[1..], env);
        var q := Run(cfg, r.ws, b, env);
        assert o.events + (r.events + q.events) == (o.events + r.events) + q.events;
      }
    }
  }

  /** Reading the same bytes in several reads. */
  function RunReads(cfg: Cfg, w: Ws, pieces: seq<seq<byte>>, env: Env): (o: Outcome)
    requires ValidCtl(w.ctl)
    ensures ValidCtl(o.ws.ctl)
    decreases |pieces|
  {
    if pieces == [] then Outcome(w, [], 0)
    else
      var o := Run(cfg, w, pieces[0], env);
      Then(o, RunReads(cfg, o.ws, pieces[1..], env))
  }

  /** How the bytes are split into pieces makes no difference. */
  lemma {:induction false} ReadsDoNotMatter(cfg: Cfg, w: Ws, pieces: seq<seq<byte>>, env: Env)
    requires ValidCtl(w.ctl)
    ensures RunReads(cfg, w, pieces, env) == Run(cfg, w, Flatten(pieces), env)
    decreases |pieces|
  {
    if pieces != [] {
      RunConcat(cfg, w, pieces[0], Flatten(pieces[1..]), env);
      ReadsDoNotMatter(cfg, Run(cfg, w, pieces[0], env).ws, pieces[1..], env);
    }
  }

  // ----- the length bytes -----

  function Unmasked(rx: Rx): Rx { rx.(masking := rx.masking.(on := false)) }

  lemma OneStep(cfg: Cfg, w: Ws, c: byte, env: Env)
    requires ValidCtl(w.ctl)
    ensures Run(cfg, w, [c], env) == Step(cfg, w, c, env)
  {
    var o := Step(cfg, w, c, env);
    assert [c][1..] == [];
    assert o.events + [] == o.events;
  }

  /** A step that only changes the receive fields, followed by the rest of the bytes. */
  lemma FirstStep(cfg: Cfg, w: Ws, c: byte, rest: seq<byte>, rx: Rx, env: Env)
    requires ValidCtl(w.ctl)
    requires Step(cfg, w, c, env) == Continue(w, rx)
    ensures Run(cfg, w, [c] + rest, env) == Run(cfg, w.(rx := rx), rest, env)
  {
    OneStep(cfg, w, c, env);
    RunConcat(cfg, w, [c], rest, env);
    var r := Run(cfg, w.(rx := rx), rest, env);
    assert [] + r.events == r.events;
  }

  lemma Length64Step(cfg: Cfg, w: Ws, d: byte, k: nat, env: Env)
    requires ValidCtl(w.ctl) && !w.ctl.unusable && 1 <= k <= 7 && w.rx.parse == Len64(k)
    ensures k == 1 ==>
      Step(cfg, w, d, env) == LengthDone(cfg, w, w.rx.(packetLength := w.rx.packetLength + d), env)
    ensures k > 1 ==>
      Step(cfg, w, d, env)
      == Continue(w, w.rx.(packetLength := w.rx.packetLength + d * Pow256(k - 1), parse := Len64(k - 1)))
  {
  }

  lemma SameLengthDone(cfg: Cfg, w: Ws, w': Ws, rx: Rx, rx': Rx, env: Env)
    requires ValidCtl(w.ctl) && w'.ctl == w.ctl && rx' == rx.(parse := rx'.parse)
    ensures LengthDone(cfg, w', rx', env) == LengthDone(cfg, w, rx, env)
  {
    assert rx'.(parse := New) == rx.(parse := New);
    assert w'.(rx := rx.(parse := New)) == w.(rx := rx.(parse := New));
  }

  lemma Length64Last(cfg: Cfg, w: Ws, n: nat, env: Env)
    requires ValidCtl(w.ctl) && !w.ctl.unusable
    requires n < Pow256(1) && w.rx.parse == Len64(1)
    ensures Run(cfg, w, BigEndian(n, 1), env)
         == LengthDone(cfg, w, w.rx.(packetLength := w.rx.packetLength + n), env)
  {
    assert Pow256(0) == 1;
    assert BigEndian(n, 1) == [n];
    OneStep(cfg, w, n, env);
    Length64Step(cfg, w, n, 1, env);
  }

  lemma {:induction false} Length64Run(cfg: Cfg, w: Ws, n: nat, k: nat, env: Env)
    requires ValidCtl(w.ctl) && !w.ctl.unusable
    requires 1 <= k <= 7 && n < Pow256(k) && w.rx.parse == Len64(k)
    ensures Run(cfg, w, BigEndian(n, k), env)
         == LengthDone(cfg, w, w.rx.(packetLength := w.rx.packetLength + n), env)
    decreases k
  {
    hide Step, LengthDone, Run;
    if k == 1 {
      Length64Last(cfg, w, n, env);
    } else {
      var p := Pow256(k - 1);
      DigitBound(n, p);
      var d: byte := n / p;
      var high: nat := d * p;
      var low: nat := n % p;
      var rx := w.rx.(packetLength := w.rx.packetLength + high, parse := Len64(k - 1));
      Length64Step(cfg, w, d, k, env);
      FirstStep(cfg, w, d, BigEndian(low, k - 1), rx, env);
      Length64Run(cfg, w.(rx := rx), low, k - 1, env);
      SameLengthDone(cfg, w, w.(rx := rx), w.rx.(packetLength := w.rx.packetLength + n),
                     rx.(packetLength := rx.packetLength + low), env);
    }
  }

  /** The length bytes of a frame; a control frame may only use the short form. */
  lemma LengthRun(cfg: Cfg, w: Ws, f: Frame, env: Env)
    requires ValidCtl(w.ctl) && !w.ctl.unusable && ValidFrame(f)
    requires w.rx.parse.HdrLen? && w.rx.head.opcode == f.opcode
    ensures !IsControl(f) || f.form.Short? ==>
      Run(cfg, w, LengthBytes(f), env)
      == LengthDone(cfg, w, Unmasked(w.rx).(packetLength := |f.payload|), env)
    ensures IsControl(f) && !f.form.Short? ==> Run(cfg, w, LengthBytes(f), env).ret != 0
  {
    Pow256Values();
    var n := |f.payload|;
    var goal := Unmasked(w.rx).(packetLength := n);
    match f.form
    case Short => OneStep(cfg, w, n, env);
    case Ext16 => Length16Run(cfg, w, n, env);
    case Ext64 => Length64Whole(cfg, w, n, env);
  }

  lemma Length16Run(cfg: Cfg, w: Ws, n: nat, env: Env)
    requires ValidCtl(w.ctl) && !w.ctl.unusable && w.rx.parse.HdrLen? && w.rx.head.opcode < 16 && n < 0x1_0000
    ensures w.rx.head.opcode < 8 ==>
      Run(cfg, w, [126] + [n / 256, n % 256], env)
      == LengthDone(cfg, w, Unmasked(w.rx).(packetLength := n), env)
    ensures w.rx.head.opcode >= 8 ==> Run(cfg, w, [126] + [n / 256, n % 256], env).ret != 0
  {
    var rx0 := Unmasked(w.rx);
    if w.rx.head.opcode < 8 {
      var w1 := w.(rx := rx0.(parse := Len16Hi));
      var w2 := w.(rx := rx0.(packetLength := n / 256 * 256, parse := Len16Lo));
      assert Step(cfg, w, 126, env) == Continue(w, w1.rx);
      FirstStep(cfg, w, 126, [n / 256, n % 256], w1.rx, env);
      assert [n / 256, n % 256] == [n / 256] + [n % 256];
      FirstStep(cfg, w1, n / 256, [n % 256], w2.rx, env);
      OneStep(cfg, w2, n % 256, env);
      SameLengthDone(cfg, w, w2, rx0.(packetLength := n), w2.rx.(packetLength := n), env);
    } else {
      assert Step(cfg, w, 126, env) == Refuse(w, rx0);
    }
  }

  lemma Length64Top(cfg: Cfg, w: Ws, n: nat, env: Env)
    requires ValidCtl(w.ctl) && !w.ctl.unusable && w.rx.parse == Len64(8)
    requires n < 0x8000_0000_0000_0000 < Pow256(8)
    ensures Run(cfg, w, BigEndian(n, 8), env) == LengthDone(cfg, w, w.rx.(packetLength := n), env)
  {
    Pow256Values();
    var p := Pow256(7);
    DigitBound(n, p);
    var d: byte := n / p;
    var rx := w.rx.(packetLength := d * p, parse := Len64(7));
    assert Step(cfg, w, d, env) == Continue(w, rx);
    FirstStep(cfg, w, d, BigEndian(n % p, 7), rx, env);
    Length64Run(cfg, w.(rx := rx), n % p, 7, env);
    SameLengthDone(cfg, w, w.(rx := rx), w.rx.(packetLength := n), rx.(packetLength := n), env);
  }

  lemma Length64Whole(cfg: Cfg, w: Ws, n: nat, env: Env)
    requires ValidCtl(w.ctl) && !w.ctl.unusable && w.rx.parse.HdrLen? && w.rx.head.opcode < 16
    requires n < 0x8000_0000_0000_0000 < Pow256(8)
    ensures w.rx.head.opcode < 8 ==>
      Run(cfg, w, [127] + BigEndian(n, 8), env)
      == LengthDone(cfg, w, Unmasked(w.rx).(packetLength := n), env)
    ensures w.rx.head.opcode >= 8 ==> Run(cfg, w, [127] + BigEndian(n, 8), env).ret != 0
  {
    var rx0 := Unmasked(w.rx);
    if w.rx.head.opcode < 8 {
      var w1 := w.(rx := rx0.(parse := Len64(8)));
      assert Step(cfg, w, 127, env) == Continue(w, w1.rx);
      FirstStep(cfg, w, 127, BigEndian(n, 8), w1.rx, env);
      Length64Top(cfg, w1, n, env);
      SameLengthDone(cfg, w, w1, rx0.(packetLength := n), w1.rx.(packetLength := n), env);
    } else {
      assert Step(cfg, w, 127, env) == Refuse(w, rx0);
    }
  }

  /** A length of 2 to the 63 or more is refused. */
  lemma LengthTooLong(cfg: Cfg, w: Ws, top: byte, rest: seq<byte>, env: Env)
    requires ValidCtl(w.ctl) && !w.ctl.unusable && w.rx.parse.HdrLen? && w.rx.head.opcode < 16 && top >= 128
    ensures var o := Run(cfg, w, [127, top] + rest, env); o.ret != 0 && o.events == [] && o.ws.ctl == w.ctl
  {
    var rx := Unmasked(w.rx).(parse := Len64(8));
    OneStep(cfg, w, 127, env);
    OneStep(cfg, w.(rx := rx), top, env);
    assert [127, top] + rest == [127] + ([top] + rest);
    RunConcat(cfg, w, [127], [top] + rest, env);
    RunConcat(cfg, w.(rx := rx), [top], rest, env);
    if w.rx.head.opcode < 8 {
      assert Step(cfg, w, 127, env) == Continue(w, rx);
      assert Step(cfg, w.(rx := rx), top, env) == Refuse(w.(rx := rx), rx);
    } else {
      assert Step(cfg, w, 127, env) == Refuse(w, Unmasked(w.rx));
    }
  }

  // ----- the payload bytes -----

  /** The receive fields once `part` has been buffered. */
  function Buffered(rx: Rx, part: seq<byte>): Rx
    requires |part| <= rx.packetLength
  {
    rx.(ubuf := rx.ubuf + part, packetLength := rx.packetLength - |part|)
  }

  /** Payload bytes that neither end the frame nor fill the buffer are only buffered. */
  lemma {:induction false} BufferRun(cfg: Cfg, w: Ws, part: seq<byte>, env: Env)
    requires ValidCtl(w.ctl) && !w.ctl.unusable
    requires w.rx.parse.Payload? && !w.rx.masking.on
    requires |part| < w.rx.packetLength && |w.rx.ubuf| + |part| < cfg.bufSize
    ensures Run(cfg, w, part, env) == Continue(w, Buffered(w.rx, part))
    decreases |part|
  {
    if part == [] {
      assert w.rx.ubuf + part == w.rx.ubuf;
    } else {
      var rx := Buffered(w.rx, [part[0]]);
      assert Step(cfg, w, part[0], env) == Continue(w, rx);
      assert part == [part[0]] + part[1..];
      FirstStep(cfg, w, part[0], part[1..], rx, env);
      BufferRun(cfg, w.(rx := rx), part[1..], env);
      assert w.rx.ubuf + [part[0]] + part[1..] == w.rx.ubuf + part;
    }
  }

  /** Bytes that fill the buffer, or end the frame, are spilled together. */
  lemma ChunkRun(cfg: Cfg, w: Ws, chunk: seq<byte>, env: Env)
    requires ValidCtl(w.ctl) && !w.ctl.unusable
    requires w.rx.parse.Payload? && !w.rx.masking.on && w.rx.ubuf == []
    requires 0 < |chunk| <= w.rx.packetLength && |chunk| <= cfg.bufSize
    requires |chunk| == w.rx.packetLength || |chunk| == cfg.bufSize
    ensures Run(cfg, w, chunk, env)
         == Spill(cfg, w.(rx := Buffered(w.rx, chunk).(
              parse := if |chunk| == w.rx.packetLength then New else Payload)), env)
  {
    hide Run, Spill, Step;
    var k := |chunk| - 1;
    var w1 := w.(rx := Buffered(w.rx, chunk[..k]));
    assert chunk == chunk[..k] + [chunk[k]];
    BufferRun(cfg, w, chunk[..k], env);
    RunConcat(cfg, w, chunk[..k], [chunk[k]], env);
    OneStep(cfg, w1, chunk[k], env);
    ChunkEnd(cfg, w1, chunk[k], env);
    assert w1.rx.ubuf + [chunk[k]] == [] + chunk;
    var o := Step(cfg, w1, chunk[k], env);
    assert [] + o.events == o.events;
  }

  /** The byte that fills the buffer, or ends the frame. */
  lemma ChunkEnd(cfg: Cfg, w: Ws, c: byte, env: Env)
    requires ValidCtl(w.ctl) && !w.ctl.unusable
    requires w.rx.parse.Payload? && !w.rx.masking.on && w.rx.packetLength > 0
    requires w.rx.packetLength == 1 || |w.rx.ubuf| + 1 == cfg.bufSize
    ensures Step(cfg, w, c, env)
         == Spill(cfg, w.(rx := Buffered(w.rx, [c]).(parse := if w.rx.packetLength == 1 then New else Payload)), env)
  {
    hide Spill;
  }

  // ----- data frames -----

  lemma {:induction false} CollectConcat(inbox: Inbox, a: seq<Event>, b: seq<Event>)
    ensures Collect(inbox, a + b) == Collect(Collect(inbox, a), b)
    decreases |a|
  {
    if a == [] {
      assert a + b == b;
    } else {
      assert (a + b)[1..] == a[1..] + b;
      assert Collect(inbox, [a[0]]) == Collect(Collect(inbox, [a[0]]), [][..]);
      CollectConcat(Collect(inbox, [a[0]]), a[1..], b);
    }
  }

  /** The message under way in `inbox` with `data` added, as the callbacks see it. */
  function Grown(inbox: Inbox, binary: bool, data: seq<byte>): Message
  {
    Message(binary, (if inbox.open.Some? then inbox.open.value.payload else []) + data)
  }

  predicate DataReady(w: Ws)
  {
    && ValidCtl(w.ctl) && !w.ctl.unusable && w.ctl.conn.Established?
    && w.rx.head.opcode <= BINARY
    && !w.rx.masking.on && !w.rx.text.defeat
  }

  /** The checker state after the payload of a data frame; None if the payload is refused. */
  function FrameUtf8(rx: Rx, payload: seq<byte>): Option<byte>
  {
    if !rx.text.check then Some(rx.text.state)
    else
      var u := Utf8.Scan(rx.text.state, payload);
      if u.Some? && rx.head.final && u.value != 0 then None else u
  }

  /** The outcome of a whole data frame's payload, whatever the chunks it is delivered in. */
  predicate FrameDelivered(w: Ws, payload: seq<byte>, inbox: Inbox, o: Outcome)
  {
    var u := FrameUtf8(w.rx, payload);
    if u.None? then o.ret != 0
    else
      && o.ret == 0
      && o.ws == w.(rx := WithUtf8(w.rx, u.value).(parse := New, packetLength := 0, ubuf := []))
      && Collect(inbox, o.events) == Append(inbox, Grown(inbox, w.rx.head.frameIsBinary, payload), w.rx.head.final)
  }

  lemma LastChunk(cfg: Cfg, w: Ws, inbox: Inbox, env: Env)
    requires DataReady(w) && env.cb == 0
    requires w.rx.packetLength == 0
    ensures FrameDelivered(w, w.rx.ubuf, inbox, Spill(cfg, w.(rx := w.rx.(parse := New)), env))
  {
    var e := Receive(w.rx.ubuf, w.rx.head.frameIsBinary, w.rx.head.final);
    assert Collect(inbox, [e]) == Append(inbox, Grown(inbox, w.rx.head.frameIsBinary, w.rx.ubuf), w.rx.head.final);
  }

  lemma MiddleChunk(cfg: Cfg, w: Ws, inbox: Inbox, env: Env)
    requires DataReady(w) && env.cb == 0
    requires w.rx.packetLength > 0
    ensures var o := Spill(cfg, w, env);
      var u := if w.rx.text.check then Utf8.Scan(w.rx.text.state, w.rx.ubuf) else Some(w.rx.text.state);
      if u.None? then o.ret != 0
      else
        && o.ret == 0
        && o.ws == w.(rx := WithUtf8(w.rx, u.value).(ubuf := []))
        && Collect(inbox, o.events) == Append(inbox, Grown(inbox, w.rx.head.frameIsBinary, w.rx.ubuf), false)
  {
    var e := Receive(w.rx.ubuf, w.rx.head.frameIsBinary, false);
    assert Collect(inbox, [e]) == Append(inbox, Grown(inbox, w.rx.head.frameIsBinary, w.rx.ubuf), false);
  }

  lemma LastChunkRun(cfg: Cfg, w: Ws, payload: seq<byte>, inbox: Inbox, env: Env)
    requires DataReady(w) && env.cb == 0
    requires w.rx.parse.Payload? && w.rx.ubuf == []
    requires w.rx.packetLength == |payload| > 0 && |payload| <= cfg.bufSize
    ensures FrameDelivered(w, payload, inbox, Run(cfg, w, payload, env))
  {
    hide Step, Spill, Run, Append, Collect, Utf8.Scan;
    ChunkRun(cfg, w, payload, env);
    var last := w.(rx := Buffered(w.rx, payload));
    assert last.rx.ubuf == payload;
    LastChunk(cfg, last, inbox, env);
  }

  lemma MiddleChunkRun(cfg: Cfg, w: Ws, payload: seq<byte>, inbox: Inbox, o: Outcome, env: Env)
    requires DataReady(w) && env.cb == 0
    requires w.rx.parse.Payload? && w.rx.ubuf == []
    requires w.rx.packetLength == |payload| && 0 < cfg.bufSize < |payload|
    requires o == Run(cfg, w, payload[..cfg.bufSize], env)
    ensures
      var u := if w.rx.text.check then Utf8.Scan(w.rx.text.state, payload[..cfg.bufSize]) else Some(w.rx.text.state);
      if u.None? then o.ret != 0
      else
        && o.ret == 0
        && o.ws == w.(rx := WithUtf8(w.rx, u.value).(packetLength := |payload| - cfg.bufSize))
        && Collect(inbox, o.events)
           == Append(inbox, Grown(inbox, w.rx.head.frameIsBinary, payload[..cfg.bufSize]), false)
  {
    hide Step, Spill, Run, Append, Collect, Utf8.Scan;
    var chunk := payload[..cfg.bufSize];
    ChunkRun(cfg, w, chunk, env);
    var mid := w.(rx := Buffered(w.rx, chunk));
    assert mid.rx.ubuf == chunk;
    MiddleChunk(cfg, mid, inbox, env);
  }

  lemma {:induction false} DataRun(cfg: Cfg, w: Ws, payload: seq<byte>, inbox: Inbox, env: Env)
    requires DataReady(w) && env.cb == 0 && 0 < cfg.bufSize
    requires w.rx.parse.Payload? && w.rx.ubuf == []
    requires w.rx.packetLength == |payload| > 0
    ensures FrameDelivered(w, payload, inbox, Run(cfg, w, payload, env))
    decreases |payload|
  {
    hide Step, Spill, Run, Collect, Utf8.Scan;
    if |payload| <= cfg.bufSize {
      LastChunkRun(cfg, w, payload, inbox, env);
    } else {
      var chunk, rest := payload[..cfg.bufSize], payload[cfg.bufSize..];
      assert payload == chunk + rest;
      var o := Run(cfg, w, chunk, env);
      MiddleChunkRun(cfg, w, payload, inbox, o, env);
      RunConcat(cfg, w, chunk, rest, env);
      Utf8.ScanConcat(w.rx.text.state, chunk, rest);
      if o.ret == 0 {
        var inbox' := Collect(inbox, o.events);
        DataRun(cfg, o.ws, rest, inbox', env);
        CollectConcat(inbox, o.events, Run(cfg, o.ws, rest, env).events);
        assert Grown(inbox', w.rx.head.frameIsBinary, rest) == Grown(inbox, w.rx.head.frameIsBinary, payload);
      }
    }
  }

  // ----- one frame -----

  /** What the first header byte alone can be refused for. */
  predicate HeadAllowed(open: bool, f: Frame)
  {
    && f.rsv == 0
    && f.opcode in {0, 1, 2, 8, 9, 10}
    && (IsControl(f) ==> f.fin)
    && (f.opcode == 0 ==> open)
    && (f.opcode == 1 || f.opcode == 2 ==> !open)
  }

  /** The receive fields after an accepted first byte. */
  function HeadTaken(cfg: Cfg, rx: Rx, f: Frame): Rx
  {
    rx.(parse := HdrLen,
        head := TakenHead(rx.head, f.opcode, f.fin),
        text := OpcodeText(cfg.validateUtf8, rx.text, f.opcode))
  }

  lemma HeadStep(cfg: Cfg, w: Ws, inbox: Inbox, f: Frame, env: Env)
    requires Between(cfg, w, inbox) && ValidFrame(f)
    ensures var o := Step(cfg, w, FirstByte(f), env);
      if HeadAllowed(inbox.open.Some?, f)
      then o == Continue(w, HeadTaken(cfg, w.rx, f))
      else o.ret != 0
  {
    hide FirstByte, OnHdrLen, OnKey, OnPayload, LengthDone;
    FirstByteParts(f);
    var (rx', ok) := OnNew(cfg.validateUtf8, w.rx, FirstByte(f));
    assert ok <==> HeadAllowed(inbox.open.Some?, f);
  }

  lemma FirstByteParts(f: Frame)
    requires ValidFrame(f)
    ensures var c := FirstByte(f); c % 16 == f.opcode && c / 16 % 8 == f.rsv && (c >= 128 <==> f.fin)
  {
  }

  /** The payload check of a data frame decides exactly whether the message's text is still acceptable. */
  lemma TextLink(cfg: Cfg, w: Ws, inbox: Inbox, f: Frame, rx: Rx)
    requires Boundary(cfg, w, inbox) && ValidFrame(f)
    requires HeadAllowed(inbox.open.Some?, f) && !IsControl(f)
    requires rx.text.check == HeadTaken(cfg, w.rx, f).text.check
    requires rx.text.state == HeadTaken(cfg, w.rx, f).text.state && rx.head.final == f.fin
    ensures rx.text.check == (cfg.validateUtf8 && !Extended(inbox.open, f).binary)
    ensures FrameUtf8(rx, f.payload).Some?
       <==> (cfg.validateUtf8 ==> TextOk(Extended(inbox.open, f), f.fin))
    ensures FrameUtf8(rx, f.payload).Some? && rx.text.check ==>
      Utf8.Scan(0, Extended(inbox.open, f).payload) == FrameUtf8(rx, f.payload)
  {
    var m := Extended(inbox.open, f);
    Utf8.ScanIsWellFormed(m.payload);
    Utf8.ScanIsViable(m.payload);
    if f.opcode == CONTINUATION {
      Utf8.ScanConcat(0, inbox.open.value.payload, f.payload);
    }
  }

  /** The length and payload of a data frame. */
  lemma DataFrameRun(cfg: Cfg, w: Ws, f: Frame, inbox: Inbox, env: Env)
    requires ValidCtl(w.ctl) && !w.ctl.unusable && w.ctl.conn.Established?
    requires ValidFrame(f) && f.opcode <= BINARY && env.cb == 0 && 0 < cfg.bufSize
    requires w.rx.parse.HdrLen? && w.rx.head.opcode == f.opcode && w.rx.ubuf == [] && !w.rx.text.defeat
    ensures FrameDelivered(w.(rx := Unmasked(w.rx)), f.payload, inbox,
                           Run(cfg, w, LengthBytes(f) + f.payload, env))
  {
    hide Step, Spill, Run, LengthBytes, Collect, Append, Utf8.Scan;
    var rx := Unmasked(w.rx).(packetLength := |f.payload|);
    LengthRun(cfg, w, f, env);
    RunConcat(cfg, w, LengthBytes(f), f.payload, env);
    var o := Run(cfg, w, LengthBytes(f), env);
    if f.payload == [] {
      LastChunk(cfg, w.(rx := rx), inbox, env);
      EmptyRun(cfg, o.ws, env);
      assert o.events + [] == o.events;
    } else {
      DataRun(cfg, w.(rx := rx.(parse := Payload)), f.payload, inbox, env);
      var r := Run(cfg, o.ws, f.payload, env);
      assert [] + r.events == r.events;
    }
  }

  lemma EmptyRun(cfg: Cfg, w: Ws, env: Env)
    requires ValidCtl(w.ctl)
    ensures Run(cfg, w, [], env) == Outcome(w, [], 0)
  {
  }

  /** The length and payload of a frame that fits the rx buffer are spilled once. */
  lemma SmallFrameRun(cfg: Cfg, w: Ws, f: Frame, env: Env)
    requires ValidCtl(w.ctl) && !w.ctl.unusable && ValidFrame(f)
    requires f.form.Short? && |f.payload| <= cfg.bufSize
    requires w.rx.parse.HdrLen? && w.rx.head.opcode == f.opcode && w.rx.ubuf == []
    ensures Run(cfg, w, LengthBytes(f) + f.payload, env)
         == Spill(cfg, w.(rx := Unmasked(w.rx).(parse := New, packetLength := 0,
                                      ubuf := f.payload)), env)
  {
    hide Step, Spill, Run, LengthBytes;
    var rx := Unmasked(w.rx).(packetLength := |f.payload|);
    LengthRun(cfg, w, f, env);
    RunConcat(cfg, w, LengthBytes(f), f.payload, env);
    var o := Run(cfg, w, LengthBytes(f), env);
    if f.payload == [] {
      EmptyRun(cfg, o.ws, env);
      assert o.events + [] == o.events;
    } else {
      var w1 := w.(rx := rx.(parse := Payload));
      ChunkRun(cfg, w1, f.payload, env);
      assert Buffered(w1.rx, f.payload).ubuf == f.payload;
      var r := Run(cfg, o.ws, f.payload, env);
      assert [] + r.events == r.events;
    }
  }

  lemma ControlSpill(cfg: Cfg, w: Ws, inbox: Inbox, env: Env)
    requires ValidCtl(w.ctl) && w.ctl.conn.Established? && !w.ctl.unusable && env.cb == 0
    requires w.rx.head.opcode == PING || w.rx.head.opcode == PONG
    requires w.rx.text.defeat
    ensures var o := Spill(cfg, w, env);
      && o.ret == 0
      && o.ws.rx == w.rx.(ubuf := [])
      && o.ws.ctl.conn.Established? && !o.ws.ctl.unusable
      && o.ws.ctl.awaitingPong == (w.ctl.awaitingPong && w.rx.head.opcode != 10)
      && Collect(inbox, o.events) == AddControl(inbox, w.rx.head.opcode, w.rx.ubuf)
  {
    var e := ReceivePing(w.rx.ubuf);
    var inbox' := AddControl(inbox, PING, w.rx.ubuf);
    assert [e][1..] == [] && [e, WantWritable][1..] == [WantWritable] && [WantWritable][1..] == [];
    assert Collect(inbox', [WantWritable]) == inbox';
  }

  /** One frame: accepted exactly when it is acceptable, and then delivered exactly; a PONG ends the wait for one. */
  lemma FrameTheorem(cfg: Cfg, w: Ws, inbox: Inbox, f: Frame, env: Env)
    requires Boundary(cfg, w, inbox) && ValidFrame(f) && f.opcode != 8
    requires env.cb == 0 && 125 <= cfg.bufSize
    ensures var o := Run(cfg, w, Encode(f), env);
      && (o.ret == 0 <==> Acceptable(cfg, inbox, f))
      && (o.ret == 0 ==> Boundary(cfg, o.ws, Feed(inbox, f)) && Collect(inbox, o.events) == Feed(inbox, f))
      && (o.ret == 0 ==> o.ws.ctl.awaitingPong == (w.ctl.awaitingPong && f.opcode != 10))
  {
    hide Step, Spill, Run, LengthBytes, Collect, Utf8.Scan, TextOk;
    var rest := LengthBytes(f) + f.payload;
    HeadStep(cfg, w, inbox, f, env);
    OneStep(cfg, w, FirstByte(f), env);
    RunConcat(cfg, w, [FirstByte(f)], rest, env);
    if HeadAllowed(inbox.open.Some?, f) {
      var w1 := w.(rx := HeadTaken(cfg, w.rx, f));
      FirstStep(cfg, w, FirstByte(f), rest, w1.rx, env);
      if IsControl(f) {
        LengthRun(cfg, w1, f, env);
        if f.form.Short? {
          SmallFrameRun(cfg, w1, f, env);
          ControlSpill(cfg, w1.(rx := Unmasked(w1.rx).(parse := New, packetLength := 0,
                                             ubuf := f.payload)), inbox, env);
        } else {
          RunConcat(cfg, w1, LengthBytes(f), f.payload, env);
        }
      } else {
        DataFrameRun(cfg, w1, f, inbox, env);
        TextLink(cfg, w, inbox, f, Unmasked(w1.rx));
        assert [] + f.payload == f.payload;
        assert Grown(inbox, w1.rx.head.frameIsBinary, f.payload) == Extended(inbox.open, f);
      }
    }
  }

  // ----- every sequence of frames -----

  /**
    * For every sequence of frames other than CLOSE, split into reads in any way: the machine takes all
    * of it exactly when every frame is acceptable, and then the callbacks have delivered exactly the
    * messages sent, in order, and the part of a message still under way.
    */
  lemma {:induction false} DeliveryTheorem(cfg: Cfg, w: Ws, inbox: Inbox, fs: seq<Frame>, env: Env)
    requires Boundary(cfg, w, inbox)
    requires forall f | f in fs :: ValidFrame(f) && f.opcode != 8
    requires env.cb == 0 && 125 <= cfg.bufSize
    ensures var o := Run(cfg, w, EncodeAll(fs), env);
      && (o.ret == 0 <==> AcceptableAll(cfg, inbox, fs))
      && (o.ret == 0 ==> Boundary(cfg, o.ws, FeedAll(inbox, fs)) && Collect(inbox, o.events) == FeedAll(inbox, fs))
      && (o.ret == 0 ==> o.ws.ctl.awaitingPong == (w.ctl.awaitingPong && forall f | f in fs :: f.opcode != 10))
    decreases |fs|
  {
    hide Step, Encode, Acceptable, Feed;
    if fs != [] {
      var f, rest := fs[0], EncodeAll(fs[1..]);
      FrameTheorem(cfg, w, inbox, f, env);
      RunConcat(cfg, w, Encode(f), rest, env);
      var o := Run(cfg, w, Encode(f), env);
      if o.ret == 0 {
        DeliveryTheorem(cfg, o.ws, Feed(inbox, f), fs[1..], env);
        assert fs == [f] + fs[1..];
        CollectConcat(inbox, o.events, Run(cfg, o.ws, rest, env).events);
      }
    }
  }

  /** A client as lws_client_interpret_server_handshake leaves it: established, nothing received. */
  predicate Fresh(w: Ws)
  {
    && ValidCtl(w.ctl) && w.ctl.conn.Established? && !w.ctl.unusable
    && w.rx.parse.New? && w.rx.ubuf == []
    && !w.rx.head.continuationPossible && !w.rx.head.owedAFin
  }

  const EMPTY := Inbox(None, [], [], [])

  lemma {:induction false} AcceptableIsAllowed(cfg: Cfg, inbox: Inbox, fs: seq<Frame>)
    requires !cfg.validateUtf8
    ensures AcceptableAll(cfg, inbox, fs) <==> AllowedSequence(inbox.open.Some?, fs)
    decreases |fs|
  {
    if fs != [] {
      AcceptableIsAllowed(cfg, Feed(inbox, fs[0]), fs[1..]);
    }
  }

  // ----- text messages -----

  /** All text received so far is UTF-8, or can still become UTF-8. */
  ghost predicate GoodText(inbox: Inbox)
  {
    && (forall i | 0 <= i < |inbox.done| :: TextOk(inbox.done[i], true))
    && (inbox.open.Some? ==> TextOk(inbox.open.value, false))
  }

  lemma ViablePrefix(a: seq<byte>, b: seq<byte>)
    requires Utf8.Viable(a + b) || Utf8.WellFormed(a + b)
    ensures Utf8.Viable(a)
  {
    Utf8.ScanConcat(0, a, b);
    Utf8.ScanIsViable(a);
    Utf8.ScanIsViable(a + b);
    Utf8.ScanIsWellFormed(a + b);
  }

  /** One allowed frame: it is acceptable exactly when the text is still good after it. */
  lemma FrameText(cfg: Cfg, inbox: Inbox, f: Frame)
    requires cfg.validateUtf8 && Allowed(inbox.open.Some?, f)
    ensures GoodText(inbox) ==> (Acceptable(cfg, inbox, f) <==> GoodText(Feed(inbox, f)))
    ensures GoodText(Feed(inbox, f)) ==> GoodText(inbox)
  {
    if !IsControl(f) {
      var m := Extended(inbox.open, f);
      var inbox' := Feed(inbox, f);
      if f.fin {
        assert inbox'.done[|inbox.done|] == m;
      }
      assert forall i | 0 <= i < |inbox.done| :: inbox'.done[i] == inbox.done[i];
      if GoodText(inbox') && inbox.open.Some? && !m.binary {
        ViablePrefix(inbox.open.value.payload, f.payload);
      }
    }
  }

  lemma {:induction false} SequenceText(cfg: Cfg, inbox: Inbox, fs: seq<Frame>)
    requires cfg.validateUtf8 && AllowedSequence(inbox.open.Some?, fs)
    ensures GoodText(inbox) ==> (AcceptableAll(cfg, inbox, fs) <==> GoodText(FeedAll(inbox, fs)))
    ensures GoodText(FeedAll(inbox, fs)) ==> GoodText(inbox)
    decreases |fs|
  {
    hide GoodText, Acceptable;
    if fs != [] {
      FrameText(cfg, inbox, fs[0]);
      SequenceText(cfg, Feed(inbox, fs[0]), fs[1..]);
    }
  }
}
