/** What a client does with a CLOSE frame: everything before it is delivered, and nothing after it is read. */
module CloseFrame {
  import opened Bytes
  import opened ClientRx
  import opened Delivery
  import Utf8

  /** The text behind the close code is checked like a message under way, so it may end inside a character. */
  ghost predicate ReasonOk(cfg: Cfg, payload: seq<byte>)
  {
    cfg.validateUtf8 && |payload| > 2 ==> Utf8.Viable(payload[2..])
  }

  /**
    * What a CLOSE is answered with: its own payload, if that has no status, one of section 7.4.1 of RFC 6455 that may
    * be sent, or one from 3000 on; otherwise the status is replaced by 1002.
    */
  function ReplyTo(payload: seq<byte>): (r: seq<byte>)
    ensures |r| == |payload|
  {
    if |payload| < 2 then payload
    else
      var status := payload[0] as int * 256 + payload[1] as int;
      if 1000 <= status <= 1003 || 1007 <= status <= 1011 || 3000 <= status then payload
      else [3, 234] + payload[2..]
  }

  /** The answer comes to the socket: no refusal by the callback, no partial send in the way, no denial. */
  predicate Answers(ctl: Ctl, env: Env)
  {
    && env.cb == 0 && ctl.truncLen == 0 && !env.socket.Denied?
    && (ctl.conn.Established? || ctl.conn.ReturnedCloseAlready?)
  }

  /** The report of a CLOSE, and its answer; one that acknowledges an own CLOSE is not reported. */
  function Farewell(ctl: Ctl, payload: seq<byte>, env: Env): seq<Event>
  {
    var reply := ReplyTo(payload);
    if ctl.conn.AwaitingCloseAck? then []
    else if Answers(ctl, env) then [PeerClose(reply), WriteClose(reply)]
    else [PeerClose(reply)]
  }

  /** The connection behind it; a partial send in the way makes it unusable. */
  function Parting(ctl: Ctl, env: Env): Ctl
  {
    if ctl.conn.AwaitingCloseAck? || env.cb != 0 then ctl
    else
      ctl.(conn := ReturnedCloseAlready,
           unusable := ctl.unusable || ctl.truncLen > 0 || (Answers(ctl, env) && env.socket.Error?),
           truncLen := if Answers(ctl, env) && env.socket.Partial? then env.socket.unsent else ctl.truncLen)
  }

  /** The rx buffer behind it: what was reported, masked if it was handed to the socket. */
  function LeftBehind(ctl: Ctl, payload: seq<byte>, env: Env): seq<byte>
  {
    if ctl.conn.AwaitingCloseAck? then payload
    else if Answers(ctl, env) then Mask(ReplyTo(payload), env.key)
    else ReplyTo(payload)
  }

  function ReasonState(cfg: Cfg, payload: seq<byte>): Option<byte>
  {
    if cfg.validateUtf8 && |payload| > 2 then Utf8.Scan(0, payload[2..]) else Some(0)
  }

  /**
    * A CLOSE frame always ends the read, in every state of the connection; it is reported and answered exactly if it is
    * allowed and its text is.
    */
  lemma CloseFrameRun(cfg: Cfg, w: Ws, inbox: Inbox, f: Frame, env: Env)
    requires Between(cfg, w, inbox) && ValidFrame(f) && f.opcode == 8 && 125 <= cfg.bufSize
    ensures var o := Run(cfg, w, Encode(f), env);
      && o.ret != 0
      && if Allowed(inbox.open.Some?, f) && ReasonOk(cfg, f.payload)
         then
           && o.events == Farewell(w.ctl, f.payload, env)
           && o.ws.ctl == Parting(w.ctl, env)
           && o.ws.rx.parse.New? && o.ws.rx.ubuf == LeftBehind(w.ctl, f.payload, env)
           && Some(o.ws.rx.text.state) == ReasonState(cfg, f.payload)
         else o.events == [] && o.ws.ctl == w.ctl
  {
    hide Step, Spill, Run, LengthBytes, Allowed;
    var rest := LengthBytes(f) + f.payload;
    HeadStep(cfg, w, inbox, f, env);
    OneStep(cfg, w, FirstByte(f), env);
    RunConcat(cfg, w, [FirstByte(f)], rest, env);
    ClosePart(inbox.open.Some?, f);
    if HeadAllowed(inbox.open.Some?, f) {
      var w1 := w.(rx := HeadTaken(cfg, w.rx, f));
      FirstStep(cfg, w, FirstByte(f), rest, w1.rx, env);
      LengthRun(cfg, w1, f, env);
      if f.form.Short? {
        SmallFrameRun(cfg, w1, f, env);
        CloseSpill(cfg, w1.(rx := Unmasked(w1.rx).(parse := New, packetLength := 0, ubuf := f.payload)), env);
      } else {
        RunConcat(cfg, w1, LengthBytes(f), f.payload, env);
        LongLength(cfg, w1, f, env);
      }
    } else {
      HeadRefused(cfg, w, inbox, f, env);
    }
  }

  lemma ClosePart(open: bool, f: Frame)
    requires f.opcode == 8
    ensures Allowed(open, f) <==> HeadAllowed(open, f) && f.form.Short?
  {
  }

  lemma HeadRefused(cfg: Cfg, w: Ws, inbox: Inbox, f: Frame, env: Env)
    requires Between(cfg, w, inbox) && ValidFrame(f) && !HeadAllowed(inbox.open.Some?, f)
    ensures var o := Step(cfg, w, FirstByte(f), env); o.events == [] && o.ws.ctl == w.ctl
  {
  }

  lemma LongLength(cfg: Cfg, w: Ws, f: Frame, env: Env)
    requires ValidCtl(w.ctl) && !w.ctl.unusable && ValidFrame(f) && f.opcode == 8 && !f.form.Short?
    requires w.rx.parse.HdrLen? && w.rx.head.opcode == f.opcode
    ensures var o := Run(cfg, w, LengthBytes(f), env); o.events == [] && o.ws.ctl == w.ctl
  {
    var rx := w.rx.(masking := w.rx.masking.(on := false));
    var c: byte := if f.form.Ext16? then 126 else 127;
    assert LengthBytes(f)[0] == c;
    assert Step(cfg, w, c, env) == Refuse(w, rx);
  }

  lemma CloseSpill(cfg: Cfg, w: Ws, env: Env)
    requires ValidCtl(w.ctl) && w.rx.head.opcode == 8 && w.rx.text.state == 0
    ensures var o := Spill(cfg, w, env);
      && o.ret != 0
      && if ReasonOk(cfg, w.rx.ubuf)
         then
           && o.events == Farewell(w.ctl, w.rx.ubuf, env)
           && o.ws.ctl == Parting(w.ctl, env)
           && o.ws.rx.parse == w.rx.parse && o.ws.rx.ubuf == LeftBehind(w.ctl, w.rx.ubuf, env)
           && Some(o.ws.rx.text.state) == ReasonState(cfg, w.rx.ubuf)
         else o.events == [] && o.ws.ctl == w.ctl
  {
    assert CloseReply(w.rx.ubuf) == ReplyTo(w.rx.ubuf);
    hide CloseReply, ReplyTo;
    if |w.rx.ubuf| > 2 {
      Utf8.ScanIsViable(w.rx.ubuf[2..]);
    }
  }

  /**
    * Any frames and then a CLOSE, in any split into reads, and whatever follows: all messages before the CLOSE are
    * delivered, then it is reported and answered, and the rest is not read. If a frame before it is not acceptable,
    * the reading ends there.
    */
  lemma EndsWithClose(cfg: Cfg, w: Ws, fs: seq<Frame>, close: Frame, rest: seq<byte>, pieces: seq<seq<byte>>, env: Env)
    requires Fresh(w) && env.cb == 0 && 125 <= cfg.bufSize
    requires forall f | f in fs :: ValidFrame(f) && f.opcode != 8
    requires ValidFrame(close) && close.opcode == 8
    requires Flatten(pieces) == EncodeAll(fs) + (Encode(close) + rest)
    ensures var o := RunReads(cfg, w, pieces, env);
      && o.ret != 0
      && (AcceptableAll(cfg, EMPTY, fs) ==>
            var before := Run(cfg, w, EncodeAll(fs), env);
            && Collect(EMPTY, o.events) == FeedAll(EMPTY, fs) && Uncloses(before.events)
            && o.events == before.events +
                 (if Allowed(FeedAll(EMPTY, fs).open.Some?, close) && ReasonOk(cfg, close.payload)
                  then Farewell(before.ws.ctl, close.payload, env) else []))
  {
    hide Run, Encode, Allowed, ReasonOk, Farewell, Parting, LeftBehind, Collect, FeedAll, Between;
    var a := EncodeAll(fs);
    ReadsDoNotMatter(cfg, w, pieces, env);
    assert Boundary(cfg, w, EMPTY) by { FreshBoundary(cfg, w); }
    DeliveryTheorem(cfg, w, EMPTY, fs, env);
    RunConcat(cfg, w, a, Encode(close) + rest, env);
    var o := Run(cfg, w, a, env);
    if o.ret == 0 {
      RunUncloses(cfg, w, a, env);
      RunConcat(cfg, o.ws, Encode(close), rest, env);
      CloseFrameRun(cfg, o.ws, FeedAll(EMPTY, fs), close, env);
      var last := Run(cfg, o.ws, Encode(close), env);
      CollectConcat(EMPTY, o.events, last.events);
      FarewellCollects(FeedAll(EMPTY, fs), o.ws.ctl, close.payload, env);
    }
  }

  lemma FreshBoundary(cfg: Cfg, w: Ws)
    requires Fresh(w)
    ensures Boundary(cfg, w, EMPTY)
  {
  }

  lemma FarewellCollects(inbox: Inbox, ctl: Ctl, payload: seq<byte>, env: Env)
    ensures Collect(inbox, Farewell(ctl, payload, env)) == inbox && Collect(inbox, []) == inbox
  {
    hide ReplyTo;
    var reply := ReplyTo(payload);
    assert [PeerClose(reply)][1..] == [] && [PeerClose(reply), WriteClose(reply)][1..] == [WriteClose(reply)];
    assert Collect(inbox, [WriteClose(reply)]) == inbox;
  }

  /** Neither a CLOSE that was reported nor one that was written. */
  predicate Uncloses(events: seq<Event>) { forall e | e in events :: !e.PeerClose? && !e.WriteClose? }

  lemma SpillUncloses(cfg: Cfg, w: Ws, env: Env)
    requires ValidCtl(w.ctl)
    ensures var o := Spill(cfg, w, env); o.ret == 0 ==> Uncloses(o.events)
  {
  }

  /** A read that is taken whole has no CLOSE in it. */
  lemma {:induction false} RunUncloses(cfg: Cfg, w: Ws, bytes: seq<byte>, env: Env)
    requires ValidCtl(w.ctl)
    ensures var o := Run(cfg, w, bytes, env); o.ret == 0 ==> Uncloses(o.events)
    decreases |bytes|
  {
    hide Step, Spill;
    if bytes != [] {
      var rx, spills := StepSplits(cfg, w, bytes[0], env);
      if spills {
        SpillUncloses(cfg, w.(rx := rx), env);
      }
      RunUncloses(cfg, Step(cfg, w, bytes[0], env).ws, bytes[1..], env);
    }
  }

  // ----- every sequence of frames -----

  /** The frames before the first CLOSE. */
  function UpToClose(fs: seq<Frame>): (pre: seq<Frame>)
    ensures |pre| <= |fs| && pre == fs[..|pre|]
    ensures forall f | f in pre :: f.opcode != 8
    ensures |pre| < |fs| ==> fs[|pre|].opcode == 8
  {
    if fs == [] || fs[0].opcode == 8 then [] else [fs[0]] + UpToClose(fs[1..])
  }

  lemma {:induction false} EncodeSplit(fs: seq<Frame>, k: nat)
    requires k < |fs| && forall f | f in fs :: ValidFrame(f)
    ensures EncodeAll(fs) == EncodeAll(fs[..k]) + (Encode(fs[k]) + EncodeAll(fs[k + 1..]))
    decreases k
  {
    hide Encode, EncodeAll;
    EncodeFirst(fs);
    if k == 0 {
      EncodeNone();
      assert fs[..0] == [];
      assert [] + EncodeAll(fs) == EncodeAll(fs);
    } else {
      var pre := fs[..k];
      assert pre[0] == fs[0] && pre[1..] == fs[1..][..k - 1] && fs[1..][k..] == fs[k + 1..];
      EncodeFirst(pre);
      EncodeSplit(fs[1..], k - 1);
      var a, b, c := Encode(fs[0]), EncodeAll(pre[1..]), Encode(fs[k]) + EncodeAll(fs[k + 1..]);
      assert a + (b + c) == (a + b) + c;
    }
  }

  lemma EncodeFirst(fs: seq<Frame>)
    requires fs != [] && forall f | f in fs :: ValidFrame(f)
    ensures EncodeAll(fs) == Encode(fs[0]) + EncodeAll(fs[1..])
  {
  }

  lemma EncodeNone()
    ensures EncodeAll([]) == []
  {
  }

  /**
    * For every sequence of frames, in any split into reads: the machine takes all of it exactly if there is no CLOSE
    * and every frame is acceptable, and the messages before the first CLOSE are delivered if they are acceptable.
    */
  lemma FramesTheorem(cfg: Cfg, w: Ws, fs: seq<Frame>, pieces: seq<seq<byte>>, env: Env)
    requires Fresh(w) && env.cb == 0 && 125 <= cfg.bufSize
    requires forall f | f in fs :: ValidFrame(f)
    requires Flatten(pieces) == EncodeAll(fs)
    ensures var o, pre := RunReads(cfg, w, pieces, env), UpToClose(fs);
      && (o.ret == 0 <==> pre == fs && AcceptableAll(cfg, EMPTY, fs))
      && (AcceptableAll(cfg, EMPTY, pre) ==> Collect(EMPTY, o.events) == FeedAll(EMPTY, pre))
  {
    hide Run, RunReads, EncodeAll, Encode, Allowed, ReasonOk, Farewell, Collect, FeedAll, Boundary, AcceptableAll;
    var pre := UpToClose(fs);
    if pre == fs {
      ReadsDoNotMatter(cfg, w, pieces, env);
      FreshBoundary(cfg, w);
      DeliveryTheorem(cfg, w, EMPTY, fs, env);
    } else {
      EncodeSplit(fs, |pre|);
      EndsWithClose(cfg, w, pre, fs[|pre|], EncodeAll(fs[|pre| + 1..]), pieces, env);
    }
  }

  /** With UTF-8 checking off, the frame sequences taken are exactly those without CLOSE that section 5.4 allows. */
  lemma HeadersTheorem(cfg: Cfg, w: Ws, fs: seq<Frame>, pieces: seq<seq<byte>>, env: Env)
    requires Fresh(w) && env.cb == 0 && 125 <= cfg.bufSize && !cfg.validateUtf8
    requires forall f | f in fs :: ValidFrame(f)
    requires Flatten(pieces) == EncodeAll(fs)
    ensures var o, pre := RunReads(cfg, w, pieces, env), UpToClose(fs);
      && (o.ret == 0 <==> pre == fs && AllowedSequence(false, fs))
      && (AllowedSequence(false, pre) ==> Collect(EMPTY, o.events) == FeedAll(EMPTY, pre))
  {
    hide RunReads, Collect, FeedAll, AcceptableAll, AllowedSequence;
    FramesTheorem(cfg, w, fs, pieces, env);
    AcceptableIsAllowed(cfg, EMPTY, fs);
    AcceptableIsAllowed(cfg, EMPTY, UpToClose(fs));
  }

  /**
    * With UTF-8 checking on, a sequence of frames that is allowed up to its first CLOSE is refused before that at some
    * byte exactly when some text message is not well-formed UTF-8, or the unfinished one no longer can be;
    * fragmentation, buffer spills, interleaved PING and PONG and the split into reads make no difference.
    */
  lemma TextTheorem(cfg: Cfg, w: Ws, fs: seq<Frame>, pieces: seq<seq<byte>>, env: Env)
    requires Fresh(w) && env.cb == 0 && 125 <= cfg.bufSize && cfg.validateUtf8
    requires forall f | f in fs :: ValidFrame(f)
    requires AllowedSequence(false, UpToClose(fs))
    requires Flatten(pieces) == EncodeAll(fs)
    ensures var o, pre := RunReads(cfg, w, pieces, env), UpToClose(fs);
      && (o.ret != 0 <==> pre != fs || !GoodText(FeedAll(EMPTY, pre)))
      && (GoodText(FeedAll(EMPTY, pre)) ==> Collect(EMPTY, o.events) == FeedAll(EMPTY, pre))
  {
    hide RunReads, Collect, FeedAll, AcceptableAll, AllowedSequence;
    FramesTheorem(cfg, w, fs, pieces, env);
    SequenceText(cfg, EMPTY, UpToClose(fs));
  }
}
