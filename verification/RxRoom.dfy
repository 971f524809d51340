/**
  * The rx buffer of a client connection over whole runs: when every payload byte is stored inside it. The receive
  * machine empties it with each spill that is taken, and leaves it as it is with one that is refused.
  */
module RxRoom {
  import opened Bytes
  import opened ClientRx
  import opened Closing

  predicate HasRoom(cfg: Cfg, w: Ws) { |w.rx.ubuf| < cfg.bufSize }

  /** The next byte goes into the rx buffer. */
  predicate Stores(w: Ws) { !w.ctl.unusable && w.rx.parse.Payload? }

  /** Every byte of a read that goes into the rx buffer is stored inside it. */
  predicate Within(cfg: Cfg, w: Ws, bytes: seq<byte>, env: Env)
    requires ValidCtl(w.ctl)
    decreases |bytes|
  {
    bytes == [] ||
    ((Stores(w) ==> HasRoom(cfg, w)) &&
     var o := Step(cfg, w, bytes[0], env);
     o.ret == 0 ==> Within(cfg, o.ws, bytes[1..], env))
  }

  /** A read comes to a payload byte before a spill has emptied the buffer. */
  predicate TakesPayload(cfg: Cfg, w: Ws, bytes: seq<byte>, env: Env)
    requires ValidCtl(w.ctl)
    decreases |bytes|
  {
    bytes != [] &&
    (Stores(w) ||
     var o := Step(cfg, w, bytes[0], env);
     o.ret == 0 && o.ws.rx.ubuf != [] && TakesPayload(cfg, o.ws, bytes[1..], env))
  }

  /** The first byte of a read, and the rest of it. */
  lemma ReadStep(cfg: Cfg, w: Ws, bytes: seq<byte>, env: Env)
    requires ValidCtl(w.ctl) && bytes != [] && Within(cfg, w, bytes, env)
    ensures Stores(w) ==> HasRoom(cfg, w)
    ensures var o := Step(cfg, w, bytes[0], env);
      if o.ret != 0 then Run(cfg, w, bytes, env) == o
      else
        && Within(cfg, o.ws, bytes[1..], env)
        && var r := Run(cfg, o.ws, bytes[1..], env);
          Run(cfg, w, bytes, env) == Outcome(r.ws, o.events + r.events, r.ret)
  {
    hide Step;
  }

  // ----- one read -----

  lemma SpillRoom(cfg: Cfg, w: Ws, env: Env)
    requires ValidCtl(w.ctl)
    ensures var o := Spill(cfg, w, env);
      |o.ws.rx.ubuf| <= |w.rx.ubuf| && (o.ret == 0 ==> o.ws.rx.ubuf == [])
  {
  }

  /** A byte that is not stored leaves the buffer as it is, or empty, unless it is refused. */
  lemma HeaderRoom(cfg: Cfg, w: Ws, c: byte, env: Env)
    requires ValidCtl(w.ctl) && !Stores(w)
    ensures var o := Step(cfg, w, c, env);
      && |o.ws.rx.ubuf| <= |w.rx.ubuf|
      && (o.ret == 0 ==> o.ws.rx.ubuf == w.rx.ubuf || o.ws.rx.ubuf == [])
  {
    hide Spill, OnPayload;
    forall rx: Rx { SpillRoom(cfg, w.(rx := rx), env); }
  }

  lemma PayloadRoom(cfg: Cfg, w: Ws, c: byte, env: Env)
    requires ValidCtl(w.ctl) && HasRoom(cfg, w)
    ensures var o := OnPayload(cfg, w, c, env);
      |o.ws.rx.ubuf| <= cfg.bufSize && (o.ret == 0 ==> HasRoom(cfg, o.ws))
  {
    hide Spill;
    forall rx: Rx { SpillRoom(cfg, w.(rx := rx), env); }
  }

  lemma StepRoom(cfg: Cfg, w: Ws, c: byte, env: Env)
    requires ValidCtl(w.ctl) && HasRoom(cfg, w)
    ensures var o := Step(cfg, w, c, env);
      |o.ws.rx.ubuf| <= cfg.bufSize && (o.ret == 0 ==> HasRoom(cfg, o.ws))
  {
    if Stores(w) {
      PayloadRoom(cfg, w, c, env);
      hide OnPayload;
    } else {
      HeaderRoom(cfg, w, c, env);
    }
  }

  /** A read of a connection with room stores every byte inside the buffer; only a refusal can leave it full. */
  lemma {:induction false} RunRoom(cfg: Cfg, w: Ws, bytes: seq<byte>, env: Env)
    requires ValidCtl(w.ctl) && 0 < cfg.bufSize && HasRoom(cfg, w)
    ensures Within(cfg, w, bytes, env)
    ensures var o := Run(cfg, w, bytes, env);
      |o.ws.rx.ubuf| <= cfg.bufSize && (o.ret == 0 ==> HasRoom(cfg, o.ws))
    decreases |bytes|
  {
    hide Step;
    if bytes != [] {
      StepRoom(cfg, w, bytes[0], env);
      var o := Step(cfg, w, bytes[0], env);
      if o.ret == 0 {
        RunRoom(cfg, o.ws, bytes[1..], env);
      }
    }
  }

  /** A read of a connection whose buffer is full stores every byte inside, exactly if it comes to no payload byte. */
  lemma {:induction false} FullRun(cfg: Cfg, w: Ws, bytes: seq<byte>, env: Env)
    requires ValidCtl(w.ctl) && 0 < cfg.bufSize && |w.rx.ubuf| == cfg.bufSize
    ensures Within(cfg, w, bytes, env) <==> !TakesPayload(cfg, w, bytes, env)
    ensures Within(cfg, w, bytes, env) ==> |Run(cfg, w, bytes, env).ws.rx.ubuf| <= cfg.bufSize
    decreases |bytes|
  {
    hide Step;
    if bytes != [] && !Stores(w) {
      HeaderRoom(cfg, w, bytes[0], env);
      var o := Step(cfg, w, bytes[0], env);
      if o.ret == 0 {
        if o.ws.rx.ubuf == [] {
          RunRoom(cfg, o.ws, bytes[1..], env);
        } else {
          FullRun(cfg, o.ws, bytes[1..], env);
        }
      }
    }
  }

  // ----- every run -----

  /** The operation is a read whose bytes reach the receive machine. */
  predicate Heard(l: Link, op: Op) { op.Read? && Listens(l.ws.ctl.conn) }

  predicate Refused(cfg: Cfg, l: Link, op: Op)
    requires Closing.Valid(l)
  {
    Heard(l, op) && Run(cfg, l.ws, op.bytes, op.env).ret != 0
  }

  /** Every payload byte of a run is stored inside the rx buffer. */
  predicate OpsWithin(cfg: Cfg, l: Link, ops: seq<Op>)
    requires Closing.Valid(l)
    decreases |ops|
  {
    ops == [] ||
    ((Heard(l, ops[0]) ==> Within(cfg, l.ws, ops[0].bytes, ops[0].env)) &&
     (NextFollows(cfg, l, ops[0]);
      OpsWithin(cfg, Next(cfg, l, ops[0]).0, ops[1..])))
  }

  /** After a refused read that left the buffer full, a later read still comes to a payload byte. */
  predicate LateByte(cfg: Cfg, l: Link, refused: bool, ops: seq<Op>)
    requires Closing.Valid(l)
    decreases |ops|
  {
    ops != [] &&
    ((&& refused && Heard(l, ops[0]) && |l.ws.rx.ubuf| == cfg.bufSize
      && TakesPayload(cfg, l.ws, ops[0].bytes, ops[0].env)) ||
     (NextFollows(cfg, l, ops[0]);
      LateByte(cfg, Next(cfg, l, ops[0]).0, refused || Refused(cfg, l, ops[0]), ops[1..])))
  }

  /** The first operation of a run, and the rest of it. */
  lemma OpsStep(cfg: Cfg, l: Link, ops: seq<Op>)
    requires Closing.Valid(l) && ops != [] && OpsWithin(cfg, l, ops)
    ensures Heard(l, ops[0]) ==> Within(cfg, l.ws, ops[0].bytes, ops[0].env)
    ensures var (l1, a) := Next(cfg, l, ops[0]);
      && Closing.Valid(l1) && OpsWithin(cfg, l1, ops[1..])
      && var (l2, b) := RunOps(cfg, l1, ops[1..]);
        RunOps(cfg, l, ops).0 == l2 && RunOps(cfg, l, ops).1 == a + b
  {
    hide Next, Within;
    NextFollows(cfg, l, ops[0]);
  }

  lemma CloseRoom(l: Link, reason: nat, env: CloseEnv)
    requires Closing.Valid(l)
    ensures CloseFree(l, reason, env).0.ws.rx == l.ws.rx
  {
  }

  /** Only a read changes what is in the rx buffer. */
  lemma NextRoom(cfg: Cfg, l: Link, op: Op)
    requires Closing.Valid(l)
    ensures Next(cfg, l, op).0.ws.rx == if Heard(l, op) then Run(cfg, l.ws, op.bytes, op.env).ws.rx else l.ws.rx
  {
    hide CloseFree, Run;
    if !l.ws.ctl.conn.DeadSocket? {
      match op
      case Read(bytes, env, close) =>
        if Listens(l.ws.ctl.conn) {
          CloseRoom(l.(ws := Run(cfg, l.ws, bytes, env).ws), NOSTATUS, close);
        }
      case Writable(env, close) =>
        var conn := l.ws.ctl.conn;
        var ctl := PollOut(l.ws.ctl, env).0;
        var mid := SetCtl(l, if conn.ReturnedCloseAlready? then ctl.(conn := FlushingStoredSend) else ctl);
        CloseRoom(mid, NOSTATUS, close);
      case Fail(close) => CloseRoom(SetCtl(l, l.ws.ctl.(unusable := true)), NOSTATUS, close);
      case Close(reason, close) => CloseRoom(l, reason, close);
      case Reason(_, _) =>
      case Write(_) =>
    }
  }

  /**
    * Over every interleaving of events, all payload bytes are stored inside the rx buffer, exactly if no read comes
    * to a payload byte after a refused read has left the buffer full.
    */
  lemma {:induction false} RoomTheorem(cfg: Cfg, l: Link, refused: bool, ops: seq<Op>)
    requires Closing.Valid(l) && 0 < cfg.bufSize
    requires HasRoom(cfg, l.ws) || (refused && |l.ws.rx.ubuf| == cfg.bufSize)
    ensures OpsWithin(cfg, l, ops) <==> !LateByte(cfg, l, refused, ops)
    decreases |ops|
  {
    hide Next, Run, Within, TakesPayload;
    if ops != [] {
      var op := ops[0];
      NextFollows(cfg, l, op);
      NextRoom(cfg, l, op);
      if Heard(l, op) {
        if HasRoom(cfg, l.ws) {
          RunRoom(cfg, l.ws, op.bytes, op.env);
        } else {
          FullRun(cfg, l.ws, op.bytes, op.env);
        }
      }
      if Heard(l, op) ==> Within(cfg, l.ws, op.bytes, op.env) {
        RoomTheorem(cfg, Next(cfg, l, op).0, refused || Refused(cfg, l, op), ops[1..]);
      }
    }
  }

  // ----- the condition is not empty -----

  const SMALL := Cfg(2, false)
  const KEEN := CloseEnv(false, false, All, [0, 0, 0, 0])

  /** A BINARY frame of five bytes, of which two arrive: the callback refuses the full buffer. */
  const FIRST := Op.Read([0x82, 5, 1, 2], Env(1, All, [0, 0, 0, 0]), KEEN)

  /** The third byte arrives after that. */
  const LATE := Op.Read([3], Env(0, All, [0, 0, 0, 0]), KEEN)

  lemma FirstIsRefused(w: Ws)
    requires Boundary(w)
    ensures var o := Run(SMALL, w, FIRST.bytes, FIRST.env);
      && o.ret == 1 && o.ws.ctl == w.ctl
      && o.ws.rx.parse == Payload && o.ws.rx.packetLength == 3 && o.ws.rx.ubuf == [1, 2]
  {
    HeaderTaken(w);
    hide Step;
    var o1 := Step(SMALL, w, 0x82, FIRST.env);
    var o2 := Step(SMALL, o1.ws, 5, FIRST.env);
    PayloadRefused(o2.ws);
    var o3 := Step(SMALL, o2.ws, 1, FIRST.env);
    var b: seq<byte> := [0x82, 5, 1, 2];
    assert b[1..] == [5, 1, 2] && b[1..][1..] == [1, 2] && b[1..][1..][1..] == [2];
    assert Run(SMALL, o3.ws, [2], FIRST.env) == Step(SMALL, o3.ws, 2, FIRST.env);
    assert Run(SMALL, o2.ws, [1, 2], FIRST.env).ws == Run(SMALL, o3.ws, [2], FIRST.env).ws;
  }

  /** In an unmasked BINARY frame of a connection that is not closing, with five bytes to come. */
  predicate BeforeFive(ctl: Ctl, w: Ws)
  {
    && w.ctl == ctl && w.rx.parse == Payload && w.rx.packetLength == 5 && w.rx.ubuf == []
    && w.rx.head.opcode == BINARY && !w.rx.masking.on && !w.rx.text.check
  }

  lemma HeaderTaken(w: Ws)
    requires Boundary(w)
    ensures var o1 := Step(SMALL, w, 0x82, FIRST.env);
      && o1.ret == 0
      && var o2 := Step(SMALL, o1.ws, 5, FIRST.env); o2.ret == 0 && BeforeFive(w.ctl, o2.ws)
  {
    hide Spill, OnPayload, OnKey;
  }

  lemma PayloadRefused(w: Ws)
    requires ValidCtl(w.ctl) && w.ctl.conn.Established? && !w.ctl.unusable && BeforeFive(w.ctl, w)
    ensures var o3 := Step(SMALL, w, 1, FIRST.env);
      && o3.ret == 0
      && var o4 := Step(SMALL, o3.ws, 2, FIRST.env);
        && o4.ret == 1 && o4.ws.ctl == w.ctl
        && o4.ws.rx.parse == Payload && o4.ws.rx.packetLength == 3 && o4.ws.rx.ubuf == [1, 2]
  {
    hide OnNew, OnHdrLen, LengthDone, OnKey, SpillClose, SpillPing;
    var o3 := Step(SMALL, w, 1, FIRST.env);
    assert o3.ws.rx.ubuf == [1];
  }

  /** Between frames, established and with nothing in the buffer. */
  predicate Boundary(w: Ws)
  {
    && ValidCtl(w.ctl) && w.ctl.conn.Established? && !w.ctl.unusable
    && w.rx.parse.New? && w.rx.ubuf == [] && !w.rx.head.owedAFin
  }

  /** With room for two bytes: after the refusal, the connection listens, and one more payload byte has no room. */
  lemma ByteAfterRefusal(l: Link)
    requires Closing.Valid(l) && Boundary(l.ws) && l.ws.ctl.closeLen == 0 && l.ws.ctl.truncLen == 0
    ensures LateByte(SMALL, l, false, [FIRST, LATE]) && !OpsWithin(SMALL, l, [FIRST, LATE])
  {
    hide Step, Within;
    FirstIsRefused(l.ws);
    hide Run;
    var o := Run(SMALL, l.ws, FIRST.bytes, FIRST.env);
    var l1 := Next(SMALL, l, FIRST).0;
    assert l1.ws.ctl.conn == ShutDown && l1.ws.rx == o.ws.rx;
    assert [FIRST, LATE][1..] == [LATE];
    assert TakesPayload(SMALL, l1.ws, LATE.bytes, LATE.env);
    assert LateByte(SMALL, l1, true, [LATE]);
    RoomTheorem(SMALL, l, false, [FIRST, LATE]);
  }
}
