/**
  * The buffer that a pending PING payload and a close reason share, and that each write masks: a close reason set
  * while no PING payload waits in it is what the CLOSE says, and otherwise the PONG of that PING masks the reason;
  * the PONG answers the first PING since the last PONG.
  */
module PingClose {
  import opened Bytes
  import opened ClientRx
  import opened Closing
  import Delivery
  import CloseCalls
  import opened Masks

  // ----- a close reason -----

  /** The shared buffer holds the close reason `r`. */
  predicate Holds(ctl: Ctl, r: seq<byte>)
  {
    && ValidCtl(ctl)
    && 0 < |r| == ctl.closeLen
    && ctl.pingBuf[..|r|] == r
  }

  /** Every CLOSE written carries `r`, or echoes the peer's CLOSE that was reported just before. */
  predicate Carries(events: seq<Event>, r: seq<byte>)
  {
    forall i | 0 <= i < |events| && events[i].WriteClose? ::
      events[i].data == r || (i > 0 && events[i - 1] == PeerClose(events[i].data))
  }

  lemma CarriesConcat(a: seq<Event>, b: seq<Event>, r: seq<byte>)
    requires Carries(a, r) && Carries(b, r)
    ensures Carries(a + b, r)
  {
    forall i | 0 <= i < |a + b| && (a + b)[i].WriteClose?
      ensures (a + b)[i].data == r || (i > 0 && (a + b)[i - 1] == PeerClose((a + b)[i].data))
    {
      if i >= |a| {
        assert b[i - |a|].WriteClose?;
      }
    }
  }

  lemma {:induction false} RunCarries(cfg: Cfg, w: Ws, bytes: seq<byte>, env: Env, r: seq<byte>)
    requires ValidCtl(w.ctl)
    ensures Carries(Run(cfg, w, bytes, env).events, r)
    decreases |bytes|
  {
    hide Step, Spill;
    if bytes != [] {
      var o := Step(cfg, w, bytes[0], env);
      var rx, spills := StepSplits(cfg, w, bytes[0], env);
      if spills {
        SpillCarries(cfg, w.(rx := rx), env, r);
      }
      if o.ret == 0 {
        RunCarries(cfg, o.ws, bytes[1..], env, r);
        CarriesConcat(o.events, Run(cfg, o.ws, bytes[1..], env).events, r);
      }
    }
  }

  lemma SpillCarries(cfg: Cfg, w: Ws, env: Env, r: seq<byte>)
    requires ValidCtl(w.ctl)
    ensures Carries(Spill(cfg, w, env).events, r)
  {
  }

  /** Receiving leaves a close reason alone, in every state, and no PING is stashed over it. */
  lemma {:induction false} RunHolds(cfg: Cfg, w: Ws, bytes: seq<byte>, env: Env, r: seq<byte>)
    requires Holds(w.ctl, r)
    ensures Holds(Run(cfg, w, bytes, env).ws.ctl, r)
    ensures Unshared(w.ctl) ==> Unshared(Run(cfg, w, bytes, env).ws.ctl)
    decreases |bytes|
  {
    hide Step, Spill;
    if bytes != [] {
      var rx, spills := StepSplits(cfg, w, bytes[0], env);
      if spills {
        SpillHolds(cfg, w.(rx := rx), env, r);
      }
      RunHolds(cfg, Step(cfg, w, bytes[0], env).ws, bytes[1..], env, r);
    }
  }

  lemma SpillHolds(cfg: Cfg, w: Ws, env: Env, r: seq<byte>)
    requires Holds(w.ctl, r)
    ensures Holds(Spill(cfg, w, env).ws.ctl, r)
    ensures Unshared(w.ctl) ==> Unshared(Spill(cfg, w, env).ws.ctl)
  {
  }

  /** No PING with a payload waits for its PONG, which would mask the reason as it goes out. */
  predicate Unshared(ctl: Ctl) { ctl.conn.Established? && ctl.pingPending ==> ctl.pingLen == 0 }

  /** What is left of the reason `r` after some events: all of it while no CLOSE is among them, and that says `r`. */
  predicate Kept(l: Link, events: seq<Event>, r: seq<byte>)
  {
    Carries(events, r) && (Count(events, false) == 0 ==> Holds(l.ws.ctl, r) && Unshared(l.ws.ctl))
  }

  lemma {:induction false} NoneWritten(events: seq<Event>)
    ensures Count(events, false) == 0 <==> forall e | e in events :: !e.WriteClose?
  {
    if events != [] {
      NoneWritten(events[1..]);
      assert events == [events[0]] + events[1..];
    }
  }

  lemma KeptConcat(l: Link, a: seq<Event>, b: seq<Event>, r: seq<byte>)
    requires Carries(a, r) && Kept(l, b, r)
    ensures Kept(l, a + b, r)
  {
    CarriesConcat(a, b, r);
    CountConcat(a, b, false);
  }

  lemma GoodbyeHolds(l: Link, reason: nat, socket: Sent, key: Key, r: seq<byte>)
    requires Closing.Valid(l) && Holds(l.ws.ctl, r) && Unshared(l.ws.ctl)
    ensures var (l', events) := SayGoodbye(l, reason, socket, key); Kept(l', events, r)
  {
    hide MaskPing;
    var (l', events) := SayGoodbye(l, reason, socket, key);
    NoneWritten(events);
    if !socket.Denied? {
      assert events[0].WriteClose?;
    }
  }

  lemma CloseHolds(l: Link, reason: nat, env: CloseEnv, r: seq<byte>)
    requires Closing.Valid(l) && Holds(l.ws.ctl, r) && Unshared(l.ws.ctl)
    ensures var (l', events) := CloseFree(l, reason, env); Kept(l', events, r)
  {
    hide SayGoodbye;
    var conn := l.ws.ctl.conn;
    if conn.Established? {
      GoodbyeHolds(l.(pre := Was(conn)), reason, env.socket, env.key, r);
    }
  }

  lemma NothingMasked(ctl: Ctl, key: Key)
    requires ValidCtl(ctl)
    ensures MaskPing(ctl, 0, key) == ctl
  {
    assert MaskFront(ctl.pingBuf, 0, key) == ctl.pingBuf;
  }

  lemma PollOutHolds(ctl: Ctl, env: Env, r: seq<byte>)
    requires Holds(ctl, r) && Unshared(ctl)
    ensures var (ctl', events, _) := PollOut(ctl, env);
      Holds(ctl', r) && Unshared(ctl') && ctl'.conn == ctl.conn && Carries(events, r)
  {
    hide MaskPing;
    if ctl.pingLen == 0 {
      NothingMasked(ctl, env.key);
    }
  }

  lemma ServiceHolds(l: Link, env: Env, close: CloseEnv, r: seq<byte>)
    requires Closing.Valid(l) && Holds(l.ws.ctl, r) && Unshared(l.ws.ctl)
    ensures var (l', events) := Service(l, env, close); Kept(l', events, r)
  {
    hide CloseFree, PollOut;
    var conn := l.ws.ctl.conn;
    var (ctl, events, closes) := PollOut(l.ws.ctl, env);
    PollOutHolds(l.ws.ctl, env, r);
    var mid := SetCtl(l, if conn.ReturnedCloseAlready? then ctl.(conn := FlushingStoredSend) else ctl);
    CloseHolds(mid, NOSTATUS, close, r);
    var (l', more) := CloseFree(mid, NOSTATUS, close);
    KeptConcat(l', events, more, r);
  }

  /**
    * Whatever happens next, other than another lws_close_reason, the reason stays until a CLOSE is written, and is
    * what that says.
    */
  lemma NextHolds(cfg: Cfg, l: Link, op: Op, r: seq<byte>)
    requires Closing.Valid(l) && Holds(l.ws.ctl, r) && Unshared(l.ws.ctl) && !op.Reason?
    ensures var (l', events) := Next(cfg, l, op); Kept(l', events, r)
  {
    hide CloseFree, Run, Service;
    match op
    case Read(bytes, env, close) =>
      if Listens(l.ws.ctl.conn) {
        var o := Run(cfg, l.ws, bytes, env);
        RunHolds(cfg, l.ws, bytes, env, r);
        RunCarries(cfg, l.ws, bytes, env, r);
        CloseHolds(l.(ws := o.ws), NOSTATUS, close, r);
        var (l', more) := CloseFree(l.(ws := o.ws), NOSTATUS, close);
        KeptConcat(l', o.events, more, r);
      }
    case Writable(env, close) => ServiceHolds(l, env, close, r);
    case Fail(close) => CloseHolds(SetCtl(l, l.ws.ctl.(unusable := true)), NOSTATUS, close, r);
    case Close(reason, close) => CloseHolds(l, reason, close, r);
    case Write(_) =>
  }

  /** Without another lws_close_reason, whatever happens: every CLOSE says the reason or echoes the peer's. */
  lemma {:induction false} ReasonSurvives(cfg: Cfg, l: Link, ops: seq<Op>, r: seq<byte>)
    requires Closing.Valid(l) && Holds(l.ws.ctl, r) && Unshared(l.ws.ctl)
    requires forall op | op in ops :: !op.Reason?
    ensures var (l', trace) := RunOps(cfg, l, ops); Kept(l', trace, r)
    decreases |ops|
  {
    hide Next;
    if ops != [] {
      var (l1, a) := Next(cfg, l, ops[0]);
      NextFollows(cfg, l, ops[0]);
      NextHolds(cfg, l, ops[0], r);
      var (l2, b) := RunOps(cfg, l1, ops[1..]);
      if Count(a, false) == 0 {
        ReasonSurvives(cfg, l1, ops[1..], r);
        KeptConcat(l2, a, b, r);
      } else {
        ClosesOnce(cfg, l1, ops[1..]);
        NoneWritten(b);
        CarriesConcat(a, b, r);
        CountConcat(a, b, false);
      }
    }
  }

  /** The status, big-endian, and as much of the data as a control frame has room for. */
  predicate Says(r: seq<byte>, status: nat, data: seq<byte>)
  {
    && |r| >= 2 && r[0] as int * 256 + r[1] as int == status % 65536
    && if |data| <= 123 then r[2..] == data else r[2..] == data[..123]
  }

  lemma ReasonSays(status: nat, data: seq<byte>)
    ensures Says(ReasonBytes(status, data), status, data)
  {
    CloseCalls.Status(status);
  }

  /** What lws_close_reason leaves in the buffer, whatever that held; a PING payload waits in it as before. */
  lemma ReasonSet(cfg: Cfg, l: Link, status: nat, data: seq<byte>)
    requires Closing.Valid(l) && !l.ws.ctl.conn.DeadSocket?
    ensures var (l', events) := Next(cfg, l, Reason(status, data));
      && Closing.Valid(l') && events == []
      && Says(l'.ws.ctl.pingBuf[..l'.ws.ctl.closeLen], status, data)
      && Holds(l'.ws.ctl, l'.ws.ctl.pingBuf[..l'.ws.ctl.closeLen])
      && (Unshared(l'.ws.ctl) <==> Unshared(l.ws.ctl))
      && l' == SetCtl(l, l.ws.ctl.(pingBuf := l'.ws.ctl.pingBuf, closeLen := l'.ws.ctl.closeLen))
  {
    ReasonSays(status, data);
    var r := ReasonBytes(status, data);
    assert SetReason(l.ws.ctl, r).pingBuf[..|r|] == r;
  }

  /** And the CLOSE that the next close call writes says just that. */
  lemma ReasonSaid(cfg: Cfg, l: Link, status: nat, data: seq<byte>, reason: nat, env: CloseEnv)
    requires Closing.Valid(l) && CloseCalls.MaySpeak(l.ws.ctl, reason, env) && !env.socket.Denied?
    ensures var trace := RunOps(cfg, l, [Reason(status, data), Close(reason, env)]).1;
      trace != [] && trace[0].WriteClose? && Says(trace[0].data, status, data)
  {
    hide CloseFree, Says;
    var l1 := Next(cfg, l, Reason(status, data)).0;
    ReasonSet(cfg, l, status, data);
    CloseCalls.GoodbyeExactly(l1, reason, env);
    RunFirst(cfg, l, Reason(status, data), [Close(reason, env)]);
    RunFirst(cfg, l1, Close(reason, env), []);
    hide RunOps;
    assert [Reason(status, data)] + [Close(reason, env)] == [Reason(status, data), Close(reason, env)];
    assert [Close(reason, env)] + [] == [Close(reason, env)];
  }

  // ----- a close reason over a waiting PING -----

  lemma ReasonMasked(ctl: Ctl, r: seq<byte>, key: Key)
    requires Holds(ctl, r)
    ensures MaskPing(ctl, ctl.pingLen, key).pingBuf[..|r|] == r
       <==> ZeroMask(key, if ctl.pingLen < |r| then ctl.pingLen else |r|)
  {
    var k := if ctl.pingLen < |r| then ctl.pingLen else |r|;
    assert MaskFront(ctl.pingBuf, ctl.pingLen, key)[..|r|] == MaskFront(r, k, key);
    MaskKeeps(r, k, key);
  }

  /**
    * A close reason set while a PING waits, and a close call after its PONG has gone out: the CLOSE says the reason,
    * exactly if the mask of the PONG is zero on the bytes that both have in the shared buffer. If the socket did not
    * take all of the PONG there is no CLOSE.
    */
  lemma ReasonAfterPong(cfg: Cfg, l: Link, given: Op, pong: Op, close: Op)
    requires Closing.Valid(l) && l.ws.ctl.conn.Established? && !l.ws.ctl.unusable
    requires l.ws.ctl.pingPending && l.ws.ctl.truncLen == 0
    requires given.Reason? && pong.Writable? && !Fails(pong.env.socket)
    requires close.Close? && close.reason != CONTEXT_DESTROY
    requires !close.close.veto && !close.close.extFails && !close.close.socket.Denied?
    ensures var r, n := ReasonBytes(given.status, given.data), l.ws.ctl.pingLen;
      var trace := RunOps(cfg, l, [given, pong, close]).1;
      && |trace| >= 1 && trace[0].WritePong?
      && if pong.env.socket.Partial? && pong.env.socket.unsent > 0 then |trace| == 1
         else
           && |trace| >= 2 && trace[1].WriteClose?
           && (trace[1].data == r <==> ZeroMask(pong.env.key, if n < |r| then n else |r|))
  {
    hide Kill, MaskFront, Run;
    var r := ReasonBytes(given.status, given.data);
    var l1 := Next(cfg, l, given).0;
    assert Holds(l1.ws.ctl, r);
    ReasonMasked(l1.ws.ctl, r, pong.env.key);
    var l2 := Next(cfg, l1, pong).0;
    var masked := MaskPing(l1.ws.ctl, l.ws.ctl.pingLen, pong.env.key);
    assert l2 == SetCtl(l1, Sending(masked, pong.env.socket).(pingPending := false));
    if l2.ws.ctl.truncLen == 0 {
      assert Next(cfg, l2, close).1[0] == WriteClose(l2.ws.ctl.pingBuf[..|r|]);
    }
    RunThree(cfg, l, given, pong, close);
  }

  lemma RunThree(cfg: Cfg, l: Link, a: Op, b: Op, c: Op)
    requires Closing.Valid(l)
    ensures var (l1, e1) := Next(cfg, l, a);
      && Closing.Valid(l1)
      && var (l2, e2) := Next(cfg, l1, b);
        && Closing.Valid(l2)
        && var (l3, e3) := Next(cfg, l2, c); RunOps(cfg, l, [a, b, c]) == (l3, e1 + e2 + e3)
  {
    hide Next;
    NextFollows(cfg, l, a);
    var (l1, e1) := Next(cfg, l, a);
    NextFollows(cfg, l1, b);
    var (l2, e2) := Next(cfg, l1, b);
    assert [a, b, c][1..] == [b, c] && [b, c][1..] == [c] && [c][1..] == [];
    var (l3, e3) := Next(cfg, l2, c);
    NextFollows(cfg, l2, c);
    assert RunOps(cfg, l2, [c]) == (l3, e3 + []);
    assert e1 + (e2 + (e3 + [])) == e1 + e2 + e3;
  }

  // ----- a run where the reason is lost -----

  const ROOMY := Cfg(125, false)
  const EASY := CloseEnv(false, false, All, [9, 9, 9, 9])
  const PINGED := Delivery.Frame(true, 0, PING, Delivery.Short, [7, 7])

  lemma PingTaken(w: Ws, env: Env)
    requires Delivery.Fresh(w) && w.ctl.closeLen == 0 && !w.ctl.pingPending
    ensures var o := Run(ROOMY, w, [0x89, 2, 7, 7], env);
      o.ret == 0 && o.events == [ReceivePing([7, 7]), WantWritable] && o.ws.ctl == StashPing(w.ctl, [7, 7])
  {
    hide Step, Run;
    var w1 := w.(rx := Delivery.HeadTaken(ROOMY, w.rx, PINGED));
    Delivery.HeadStep(ROOMY, w, Delivery.EMPTY, PINGED, env);
    var rest := Delivery.LengthBytes(PINGED) + PINGED.payload;
    Delivery.FirstStep(ROOMY, w, 0x89, rest, w1.rx, env);
    Delivery.SmallFrameRun(ROOMY, w1, PINGED, env);
    assert [0x89] + rest == [0x89, 2, 7, 7];
  }

  /** A PING waits, a reason is given, the PONG goes out, and the CLOSE no longer says 1000. */
  lemma ReasonLost(l: Link, ping: Op, given: Op, pong: Op, close: Op)
    requires Closing.Valid(l) && Delivery.Fresh(l.ws)
    requires l.ws.ctl.closeLen == 0 && !l.ws.ctl.pingPending && l.ws.ctl.truncLen == 0
    requires ping.Read? && ping.bytes == [0x89, 2, 7, 7] && given == Reason(1000, [])
    requires pong == Writable(Env(0, All, [1, 2, 3, 4]), EASY) && close == Close(1000, EASY)
    ensures RunOps(ROOMY, l, [ping, given, pong, close]).1
         == [ReceivePing([7, 7]), WantWritable, WritePong([3, 232]), WriteClose([2, 234])]
  {
    var (l1, a) := Next(ROOMY, l, ping);
    PingTaken(l.ws, ping.env);
    assert l1.ws.ctl == StashPing(l.ws.ctl, [7, 7]) && a == [ReceivePing([7, 7]), WantWritable];
    hide Run, Next, RunOps;
    LossyRun(l1, given, pong, close);
    RunFirst(ROOMY, l, ping, [given, pong, close]);
  }

  lemma RunFirst(cfg: Cfg, l: Link, op: Op, ops: seq<Op>)
    requires Closing.Valid(l)
    ensures var (l1, a) := Next(cfg, l, op);
      Closing.Valid(l1) && var (l2, b) := RunOps(cfg, l1, ops); RunOps(cfg, l, [op] + ops) == (l2, a + b)
  {
    hide Next;
    NextFollows(cfg, l, op);
    assert ([op] + ops)[1..] == ops;
  }

  lemma LossyRun(l: Link, given: Op, pong: Op, close: Op)
    requires Closing.Valid(l) && l.ws.ctl.conn.Established? && !l.ws.ctl.unusable
    requires l.ws.ctl.pingPending && l.ws.ctl.pingLen == 2 && l.ws.ctl.truncLen == 0
    requires given == Reason(1000, []) && pong == Writable(Env(0, All, [1, 2, 3, 4]), EASY)
    requires close == Close(1000, EASY)
    ensures RunOps(ROOMY, l, [given, pong, close]).1 == [WritePong([3, 232]), WriteClose([2, 234])]
  {
    hide Run, MaskFront, RunOps;
    var l1 := Next(ROOMY, l, given).0;
    var l2 := Next(ROOMY, l1, pong).0;
    MaskedStatus(l1.ws.ctl.pingBuf, pong.env.key);
    assert l1.ws.ctl.pingBuf[..2] == [3, 232] && l2.ws.ctl.pingBuf[..2] == [2, 234];
    assert Next(ROOMY, l1, pong).1 == [WritePong(l1.ws.ctl.pingBuf[..2])];
    assert Next(ROOMY, l2, close).1 == [WriteClose(l2.ws.ctl.pingBuf[..2])];
    RunThree(ROOMY, l, given, pong, close);
  }

  // ----- a pending PING -----

  function FirstPing(fs: seq<Delivery.Frame>): Option<seq<byte>>
  {
    if fs == [] then None
    else if fs[0].opcode == 9 then Some(fs[0].payload)
    else FirstPing(fs[1..])
  }

  /** What a run of frames does to the shared buffer. */
  predicate Stashed(ctl: Ctl, ctl': Ctl, ping: Option<seq<byte>>)
  {
    && ValidCtl(ctl') && ctl'.closeLen == ctl.closeLen
    && if ctl.closeLen > 0 || ctl.pingPending || ping.None? then
         ctl'.pingBuf == ctl.pingBuf && ctl'.pingLen == ctl.pingLen && ctl'.pingPending == ctl.pingPending
       else
         ctl'.pingPending && ctl'.pingBuf[..ctl'.pingLen] == ping.value
  }

  lemma FrameStash(cfg: Cfg, w: Ws, inbox: Delivery.Inbox, f: Delivery.Frame, env: Env)
    requires Delivery.Boundary(cfg, w, inbox) && Delivery.ValidFrame(f) && f.opcode != 8
    requires env.cb == 0 && 125 <= cfg.bufSize
    requires Delivery.Acceptable(cfg, inbox, f)
    ensures Stashed(w.ctl, Run(cfg, w, Delivery.Encode(f), env).ws.ctl, FirstPing([f]))
  {
    hide Step, Run, Delivery.LengthBytes, Delivery.Collect;
    var rest := Delivery.LengthBytes(f) + f.payload;
    var w1 := w.(rx := Delivery.HeadTaken(cfg, w.rx, f));
    Delivery.HeadStep(cfg, w, inbox, f, env);
    Delivery.FirstStep(cfg, w, Delivery.FirstByte(f), rest, w1.rx, env);
    if Delivery.IsControl(f) {
      Delivery.SmallFrameRun(cfg, w1, f, env);
    } else {
      Delivery.DataFrameRun(cfg, w1, f, inbox, env);
      Delivery.FrameTheorem(cfg, w, inbox, f, env);
    }
  }

  /** Over every accepted sequence of frames, the payload stashed is that of the first PING. */
  lemma {:induction false} StashTheorem(cfg: Cfg, w: Ws, inbox: Delivery.Inbox, fs: seq<Delivery.Frame>, env: Env)
    requires Delivery.Boundary(cfg, w, inbox)
    requires forall f | f in fs :: Delivery.ValidFrame(f) && f.opcode != 8
    requires env.cb == 0 && 125 <= cfg.bufSize
    requires Delivery.AcceptableAll(cfg, inbox, fs)
    ensures Stashed(w.ctl, Run(cfg, w, Delivery.EncodeAll(fs), env).ws.ctl, FirstPing(fs))
    decreases |fs|
  {
    hide Step, Delivery.Encode, Delivery.Acceptable, Delivery.Feed;
    if fs != [] {
      var f, rest := fs[0], Delivery.EncodeAll(fs[1..]);
      Delivery.FrameTheorem(cfg, w, inbox, f, env);
      FrameStash(cfg, w, inbox, f, env);
      Delivery.RunConcat(cfg, w, Delivery.Encode(f), rest, env);
      var o := Run(cfg, w, Delivery.Encode(f), env);
      StashTheorem(cfg, o.ws, Delivery.Feed(inbox, f), fs[1..], env);
    }
  }

  // ----- every PONG -----

  /** The payload that the next PONG owes: that of the first PING since the last PONG that fits the buffer. */
  function OwedAfter(owed: Option<seq<byte>>, e: Event): Option<seq<byte>>
  {
    match e
    case ReceivePing(data) => if owed.None? && |data| <= 125 then Some(data) else owed
    case WritePong(_) => None
    case _ => owed
  }

  function Owed(owed: Option<seq<byte>>, events: seq<Event>): Option<seq<byte>>
    decreases |events|
  {
    if events == [] then owed else Owed(OwedAfter(owed, events[0]), events[1..])
  }

  /** Every PONG carries what is owed when it is written. */
  predicate PongsRight(owed: Option<seq<byte>>, events: seq<Event>)
    decreases |events|
  {
    events == [] ||
    ((events[0].WritePong? ==> owed == Some(events[0].data)) && PongsRight(OwedAfter(owed, events[0]), events[1..]))
  }

  lemma {:induction false} OwedConcat(owed: Option<seq<byte>>, a: seq<Event>, b: seq<Event>)
    ensures Owed(owed, a + b) == Owed(Owed(owed, a), b)
    ensures PongsRight(owed, a + b) <==> PongsRight(owed, a) && PongsRight(Owed(owed, a), b)
    decreases |a|
  {
    if a == [] {
      assert a + b == b;
    } else {
      assert (a + b)[1..] == a[1..] + b;
      OwedConcat(OwedAfter(owed, a[0]), a[1..], b);
    }
  }

  lemma OwedOne(owed: Option<seq<byte>>, e: Event)
    ensures Owed(owed, [e]) == OwedAfter(owed, e)
    ensures PongsRight(owed, [e]) <==> (e.WritePong? ==> owed == Some(e.data))
  {
    assert [e][1..] == [];
  }

  /** Events without PING or PONG. */
  predicate Quiet(events: seq<Event>) { forall e | e in events :: !e.ReceivePing? && !e.WritePong? }

  lemma {:induction false} QuietOwes(owed: Option<seq<byte>>, events: seq<Event>)
    requires Quiet(events)
    ensures Owed(owed, events) == owed && PongsRight(owed, events)
    decreases |events|
  {
    if events != [] {
      QuietOwes(owed, events[1..]);
    }
  }

  /** While established, what waits in the buffer is what is owed, and without a close reason all that is owed waits. */
  predicate Answering(ctl: Ctl, owed: Option<seq<byte>>)
  {
    && ValidCtl(ctl)
    && (ctl.conn.Established? ==>
          && (ctl.pingPending ==> owed == Some(ctl.pingBuf[..ctl.pingLen]))
          && (ctl.closeLen == 0 && owed.Some? ==> ctl.pingPending))
  }

  lemma SpillAnswers(cfg: Cfg, w: Ws, env: Env, owed: Option<seq<byte>>)
    requires Answering(w.ctl, owed)
    ensures Answers(owed, Spill(cfg, w, env))
  {
    if w.rx.head.opcode == 9 {
      var data := w.rx.ubuf;
      OwedOne(owed, ReceivePing(data));
      OwedOne(OwedAfter(owed, ReceivePing(data)), WantWritable);
      assert [ReceivePing(data), WantWritable][1..] == [WantWritable];
      if !PingDropped(w.ctl, data) {
        assert StashPing(w.ctl, data).pingBuf[..|data|] == data;
      }
    } else {
      OtherQuiet(cfg, w, env);
      QuietOwes(owed, Spill(cfg, w, env).events);
    }
  }

  lemma OtherQuiet(cfg: Cfg, w: Ws, env: Env)
    requires ValidCtl(w.ctl) && w.rx.head.opcode != 9
    ensures var o := Spill(cfg, w, env);
      && Quiet(o.events)
      && (o.ws.ctl.conn.Established? ==>
            && w.ctl.conn.Established? && o.ws.ctl.closeLen == w.ctl.closeLen && o.ws.ctl.pingBuf == w.ctl.pingBuf
            && o.ws.ctl.pingLen == w.ctl.pingLen && o.ws.ctl.pingPending == w.ctl.pingPending)
  {
    hide CheckChunk, CloseReply, CloseText;
  }

  /** What a step of the receive machine keeps. */
  predicate Answers(owed: Option<seq<byte>>, o: Outcome)
  {
    Answering(o.ws.ctl, Owed(owed, o.events)) && PongsRight(owed, o.events)
  }

  lemma {:induction false} RunAnswers(cfg: Cfg, w: Ws, bytes: seq<byte>, env: Env, owed: Option<seq<byte>>)
    requires Answering(w.ctl, owed)
    ensures Answers(owed, Run(cfg, w, bytes, env))
    decreases |bytes|
  {
    hide Step, Spill;
    if bytes != [] {
      var o := Step(cfg, w, bytes[0], env);
      var rx, spills := StepSplits(cfg, w, bytes[0], env);
      if spills {
        SpillAnswers(cfg, w.(rx := rx), env, owed);
      }
      if o.ret == 0 {
        RunAnswers(cfg, o.ws, bytes[1..], env, Owed(owed, o.events));
        OwedConcat(owed, o.events, Run(cfg, o.ws, bytes[1..], env).events);
      }
    }
  }

  lemma CloseAnswers(l: Link, reason: nat, env: CloseEnv, owed: Option<seq<byte>>)
    requires Closing.Valid(l) && Answering(l.ws.ctl, owed)
    ensures var (l', events) := CloseFree(l, reason, env);
      && Answering(l'.ws.ctl, Owed(owed, events)) && PongsRight(owed, events)
  {
    CloseQuiet(l, reason, env);
    hide CloseFree;
    QuietOwes(owed, CloseFree(l, reason, env).1);
    CloseProgressValid(l, reason, env);
  }

  lemma CloseProgressValid(l: Link, reason: nat, env: CloseEnv)
    requires Closing.Valid(l)
    ensures Closing.Valid(CloseFree(l, reason, env).0)
  {
    if !l.ws.ctl.conn.DeadSocket? {
      CloseProgress(l, reason, env);
    }
  }

  lemma CloseQuiet(l: Link, reason: nat, env: CloseEnv)
    requires Closing.Valid(l)
    ensures var (l', events) := CloseFree(l, reason, env);
      Quiet(events) && (l'.ws.ctl == l.ws.ctl || !l'.ws.ctl.conn.Established?)
  {
  }

  /** A close reason that changes the payload of a PING that waits for its PONG. */
  predicate Clobbers(ctl: Ctl, r: seq<byte>)
    requires ValidCtl(ctl)
  {
    ctl.pingPending && var k := if |r| < ctl.pingLen then |r| else ctl.pingLen; r[..k] != ctl.pingBuf[..k]
  }

  lemma ReasonKeeps(ctl: Ctl, r: seq<byte>)
    requires ValidCtl(ctl) && |r| <= PING_BUF && ctl.pingPending
    ensures SetReason(ctl, r).pingBuf[..ctl.pingLen] == ctl.pingBuf[..ctl.pingLen] <==> !Clobbers(ctl, r)
  {
    var n := ctl.pingLen;
    var k := if |r| < n then |r| else n;
    var after := r + ctl.pingBuf[|r|..];
    assert after[..n] == r[..k] + ctl.pingBuf[k..n];
    assert ctl.pingBuf[..n] == ctl.pingBuf[..k] + ctl.pingBuf[k..n];
    if after[..n] == ctl.pingBuf[..n] {
      assert after[..n][..k] == r[..k] && ctl.pingBuf[..n][..k] == ctl.pingBuf[..k];
    }
  }

  /** Whatever happens, unless it is a close reason over a waiting PING, a PONG carries what is owed. */
  lemma NextAnswers(cfg: Cfg, l: Link, op: Op, owed: Option<seq<byte>>)
    requires Closing.Valid(l) && Answering(l.ws.ctl, owed)
    requires op.Reason? ==> !Clobbers(l.ws.ctl, ReasonBytes(op.status, op.data))
    ensures var (l', events) := Next(cfg, l, op);
      Answering(l'.ws.ctl, Owed(owed, events)) && PongsRight(owed, events)
  {
    hide CloseFree, Run, Answering;
    if !l.ws.ctl.conn.DeadSocket? {
      match op
      case Read(bytes, env, close) =>
        if Listens(l.ws.ctl.conn) {
          RunAnswers(cfg, l.ws, bytes, env, owed);
          var o := Run(cfg, l.ws, bytes, env);
          if o.ret != 0 {
            CloseAnswers(l.(ws := o.ws), NOSTATUS, close, Owed(owed, o.events));
            OwedConcat(owed, o.events, CloseFree(l.(ws := o.ws), NOSTATUS, close).1);
          }
        }
      case Writable(env, close) => ServiceAnswers(l, env, close, owed);
      case Fail(close) =>
        var failed := SetCtl(l, l.ws.ctl.(unusable := true));
        AnsweringSame(l.ws.ctl, failed.ws.ctl, owed);
        CloseAnswers(failed, NOSTATUS, close, owed);
      case Close(reason, close) => CloseAnswers(l, reason, close, owed);
      case Reason(status, data) => ReasonAnswers(l.ws.ctl, ReasonBytes(status, data), owed);
      case Write(socket) => AnsweringSame(l.ws.ctl, WriteData(l, socket).ws.ctl, owed);
    }
  }

  lemma AnsweringSame(ctl: Ctl, ctl': Ctl, owed: Option<seq<byte>>)
    requires Answering(ctl, owed)
    requires ctl' == ctl.(unusable := ctl'.unusable, truncLen := ctl'.truncLen, conn := ctl'.conn)
    requires ctl'.conn.Established? ==> ctl.conn.Established?
    ensures Answering(ctl', owed)
  {
  }

  lemma ReasonAnswers(ctl: Ctl, r: seq<byte>, owed: Option<seq<byte>>)
    requires Answering(ctl, owed) && 0 < |r| <= PING_BUF && !Clobbers(ctl, r)
    ensures Answering(SetReason(ctl, r), owed)
  {
    if ctl.pingPending {
      ReasonKeeps(ctl, r);
    }
  }

  lemma PollOutAnswers(ctl: Ctl, env: Env, owed: Option<seq<byte>>)
    requires Answering(ctl, owed)
    ensures var (ctl', events, closes) := PollOut(ctl, env);
      && PongsRight(owed, events) && ValidCtl(ctl')
      && (closes || Answering(ctl', Owed(owed, events)))
      && (ctl'.unusable || Answering(ctl', Owed(owed, events))) && ctl'.conn == ctl.conn
  {
    OwedOne(owed, WritePong(ctl.pingBuf[..ctl.pingLen]));
  }

  lemma ServiceAnswers(l: Link, env: Env, close: CloseEnv, owed: Option<seq<byte>>)
    requires Closing.Valid(l) && Answering(l.ws.ctl, owed)
    ensures var (l', events) := Service(l, env, close);
      Answering(l'.ws.ctl, Owed(owed, events)) && PongsRight(owed, events)
  {
    hide CloseFree, PollOut, Answering;
    var conn := l.ws.ctl.conn;
    assert ValidCtl(l.ws.ctl);
    PollOutAnswers(l.ws.ctl, env, owed);
    var (ctl, events, closes) := PollOut(l.ws.ctl, env);
    if closes {
      var mid := SetCtl(l, if conn.ReturnedCloseAlready? then ctl.(conn := FlushingStoredSend) else ctl);
      var (l', more) := CloseFree(mid, NOSTATUS, close);
      OwedConcat(owed, events, more);
      if ctl.unusable {
        UnusableEnds(mid, close, Owed(owed, events));
      } else {
        AnsweringSame(ctl, mid.ws.ctl, Owed(owed, events));
        CloseAnswers(mid, NOSTATUS, close, Owed(owed, events));
      }
    }
  }

  lemma UnusableEnds(l: Link, close: CloseEnv, owed: Option<seq<byte>>)
    requires Closing.Valid(l) && l.ws.ctl.unusable
    ensures var (l', events) := CloseFree(l, NOSTATUS, close);
      Answering(l'.ws.ctl, Owed(owed, events)) && PongsRight(owed, events)
  {
    CloseQuiet(l, NOSTATUS, close);
    QuietOwes(owed, CloseFree(l, NOSTATUS, close).1);
    CloseProgressValid(l, NOSTATUS, close);
  }

  /** No close reason is set over a PING that waits for its PONG. */
  predicate NoneClobbers(cfg: Cfg, l: Link, ops: seq<Op>)
    requires Closing.Valid(l)
    decreases |ops|
  {
    ops == [] ||
    ((ops[0].Reason? ==> !Clobbers(l.ws.ctl, ReasonBytes(ops[0].status, ops[0].data))) &&
     (NextFollows(cfg, l, ops[0]);
      NoneClobbers(cfg, Next(cfg, l, ops[0]).0, ops[1..])))
  }

  /** Over every such run, every PONG carries the first PING since the PONG before it. */
  lemma {:induction false} PongsTheorem(cfg: Cfg, l: Link, ops: seq<Op>, owed: Option<seq<byte>>)
    requires Closing.Valid(l) && Answering(l.ws.ctl, owed) && NoneClobbers(cfg, l, ops)
    ensures var (l', trace) := RunOps(cfg, l, ops);
      PongsRight(owed, trace) && Answering(l'.ws.ctl, Owed(owed, trace))
    decreases |ops|
  {
    hide Next, Answering;
    if ops != [] {
      var (l1, a) := Next(cfg, l, ops[0]);
      NextFollows(cfg, l, ops[0]);
      NextAnswers(cfg, l, ops[0], owed);
      PongsTheorem(cfg, l1, ops[1..], Owed(owed, a));
      OwedConcat(owed, a, RunOps(cfg, l1, ops[1..]).1);
    }
  }

  /** A close reason set while a PING waits leaves its PONG right, exactly if it does not change the payload. */
  lemma ReasonOverPing(cfg: Cfg, l: Link, op: Op, env: Env, close: CloseEnv)
    requires Closing.Valid(l) && l.ws.ctl.conn.Established? && l.ws.ctl.pingPending && l.ws.ctl.truncLen == 0
    requires op.Reason? && !env.socket.Denied?
    ensures var l1 := Next(cfg, l, op).0;
      && Closing.Valid(l1)
      && var events := Next(cfg, l1, Writable(env, close)).1;
        && |events| > 0 && events[0].WritePong?
        && (events[0].data == l.ws.ctl.pingBuf[..l.ws.ctl.pingLen]
            <==> !Clobbers(l.ws.ctl, ReasonBytes(op.status, op.data)))
  {
    hide CloseFree;
    ReasonKeeps(l.ws.ctl, ReasonBytes(op.status, op.data));
  }

  /**
    * After any accepted frames, the first writable event that finds no unsent bytes answers the first PING among
    * them, whatever the socket does with it, unless lws_write denies it; one that finds unsent bytes leaves the
    * answer for later.
    */
  lemma PongAnswers(cfg: Cfg, l: Link, inbox: Delivery.Inbox, fs: seq<Delivery.Frame>, heard: Env, op: Op, env: Env)
    requires Closing.Valid(l) && Delivery.Boundary(cfg, l.ws, inbox)
    requires forall f | f in fs :: Delivery.ValidFrame(f) && f.opcode != 8
    requires heard.cb == 0 && 125 <= cfg.bufSize && Delivery.AcceptableAll(cfg, inbox, fs)
    requires l.ws.ctl.closeLen == 0 && !l.ws.ctl.pingPending && FirstPing(fs).Some?
    requires op.Writable? && op.env == env
    ensures var l1 := Next(cfg, l, Read(Delivery.EncodeAll(fs), heard, op.close)).0;
      && Closing.Valid(l1)
      && var (l2, events) := Next(cfg, l1, op);
        if l.ws.ctl.truncLen == 0 && env.socket.Denied? then Quiet(events)
        else if l.ws.ctl.truncLen == 0 then
          && |events| > 0 && events[0] == WritePong(FirstPing(fs).value)
          && (!env.socket.Error? ==> |events| == 1 && !l2.ws.ctl.pingPending)
        else !env.socket.Error? ==> events == [] && l2.ws.ctl.pingPending
  {
    hide Run, CloseFree, Delivery.EncodeAll, Delivery.Collect, Delivery.FeedAll, Delivery.AcceptableAll;
    var bytes := Delivery.EncodeAll(fs);
    Delivery.DeliveryTheorem(cfg, l.ws, inbox, fs, heard);
    StashTheorem(cfg, l.ws, inbox, fs, heard);
    RunReceives(cfg, l.ws, bytes, heard);
    var l1 := Next(cfg, l, Read(bytes, heard, op.close)).0;
    CloseQuiet(l1, NOSTATUS, op.close);
    ClosesLater(l1, op.close);
  }

  lemma ClosesLater(l: Link, close: CloseEnv)
    requires Closing.Valid(l) && l.ws.ctl.conn.Established? && !l.ws.ctl.unusable
    ensures var (l', events) := CloseFree(l, NOSTATUS, close);
      l.ws.ctl.truncLen > 0 ==> events == [] && l'.ws.ctl.pingPending == l.ws.ctl.pingPending
  {
  }
}
