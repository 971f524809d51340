/**
  * What a close call does, exactly: when it says goodbye and what it says, when it ends the connection at once, and
  * that it waits for bytes the socket has not taken yet.
  */
module CloseCalls {
  import opened Bytes
  import opened ClientRx
  import opened Closing
  import CloseFrame
  import Delivery

  // ----- the goodbye -----

  /** A close call may speak: established, usable, nothing unsent, and no extension or end of the context forbids it. */
  predicate MaySpeak(ctl: Ctl, reason: nat, env: CloseEnv)
  {
    && ctl.conn.Established? && !ctl.unusable && ctl.truncLen == 0 && reason != 9999
    && !env.veto && !env.extFails
  }

  /** Big-endian. */
  predicate Spells(data: seq<byte>, status: nat)
  {
    |data| >= 2 && data[0] as int * 256 + data[1] as int == status % 65536
  }

  /**
    * A close call writes a CLOSE, exactly if it may speak, there is something to say and lws_write does not deny it.
    * The CLOSE says the stored reason, or the status given; LWS_CLOSE_STATUS_NOSTATUS is none.
    */
  lemma GoodbyeExactly(l: Link, reason: nat, env: CloseEnv)
    requires Closing.Valid(l)
    ensures var (l', events) := CloseFree(l, reason, env);
      var said := MaySpeak(l.ws.ctl, reason, env) && (l.ws.ctl.closeLen > 0 || reason != 0) && !env.socket.Denied?;
      && (said <==> exists e :: e in events && e.WriteClose?)
      && (said ==>
            && events[0].WriteClose?
            && if l.ws.ctl.closeLen > 0 then events[0].data == l.ws.ctl.pingBuf[..l.ws.ctl.closeLen]
               else |events[0].data| == 2 && Spells(events[0].data, reason))
      && (said && !env.socket.Error? ==> l'.ws.ctl.conn.AwaitingCloseAck? && events == [events[0]])
  {
    hide Mask;
    var (l', events) := CloseFree(l, reason, env);
    var ctl := l.ws.ctl;
    if MaySpeak(ctl, reason, env) && (ctl.closeLen > 0 || reason != 0) && !env.socket.Denied? {
      assert events[0] in events;
      Status(reason);
    }
  }

  lemma Status(n: nat)
    ensures n / 256 % 256 * 256 + n % 256 == n % 65536
  {
  }

  // ----- the end -----

  /**
    * A close call ends the connection at once, exactly if its socket cannot be used, the context goes down, it was shut
    * down before, or the goodbye meets a socket error; in every other case the socket is first shut down in order.
    */
  lemma DiesExactly(l: Link, reason: nat, env: CloseEnv)
    requires Closing.Valid(l) && !l.ws.ctl.conn.DeadSocket?
    ensures CloseFree(l, reason, env).0.ws.ctl.conn.DeadSocket? <==>
      || l.ws.ctl.unusable || reason == 9999 || l.ws.ctl.conn.ShutDown?
      || (MaySpeak(l.ws.ctl, reason, env) && (l.ws.ctl.closeLen > 0 || reason != 0) && env.socket.Error?)
  {
  }

  // ----- unsent bytes -----

  /** A close call on a usable connection with unsent bytes waits for them. */
  lemma CloseFlushes(l: Link, reason: nat, env: CloseEnv)
    requires Closing.Valid(l) && (l.ws.ctl.conn.Established? || l.ws.ctl.conn.ReturnedCloseAlready?)
    requires !l.ws.ctl.unusable && l.ws.ctl.truncLen > 0 && reason != 9999
    ensures var (l', events) := CloseFree(l, reason, env);
      l'.ws.ctl == l.ws.ctl.(conn := FlushingStoredSend) && events == []
  {
  }

  /** What is left of `n` unsent bytes when a writable socket takes all of them, or all but some. */
  function Taken(n: nat, op: Op): nat
  {
    if !op.Writable? then n
    else
      match op.env.socket
      case All => 0
      case Partial(k) => if k < n then k else n
      case _ => n
  }

  function Left(n: nat, ops: seq<Op>): nat
    decreases |ops|
  {
    if ops == [] then n else Left(Taken(n, ops[0]), ops[1..])
  }

  /** Neither a failure, nor the end of the context, nor a socket error. */
  predicate Gentle(op: Op)
  {
    !op.Fail? && !(op.Close? && op.reason == 9999) && !(op.Writable? && op.env.socket.Error?)
  }

  predicate Flushes(ctl: Ctl) { ctl.conn.FlushingStoredSend? && ctl.truncLen > 0 && !ctl.unusable }

  lemma FlushStep(cfg: Cfg, l: Link, op: Op)
    requires Closing.Valid(l) && Flushes(l.ws.ctl) && Gentle(op)
    ensures var l' := Next(cfg, l, op).0;
      var n := Taken(l.ws.ctl.truncLen, op);
      l'.ws.ctl.truncLen == n && if n > 0 then Flushes(l'.ws.ctl) else l'.ws.ctl.conn.ShutDown?
  {
  }

  /** Nothing is unsent, and nothing can be sent any more. */
  predicate Drained(ctl: Ctl)
  {
    ctl.truncLen == 0 && (ctl.conn.ShutDown? || ctl.conn.ReturnedCloseAlready? || ctl.conn.DeadSocket?)
  }

  lemma SpillDrained(cfg: Cfg, w: Ws, env: Env)
    requires ValidCtl(w.ctl) && Drained(w.ctl) && !w.ctl.conn.ReturnedCloseAlready?
    ensures var o := Spill(cfg, w, env);
      Drained(o.ws.ctl) && (o.ret == 0 ==> !o.ws.ctl.conn.ReturnedCloseAlready?)
  {
    hide CloseReply, CloseText, CheckChunk, Mask;
  }

  lemma {:induction false} RunDrained(cfg: Cfg, w: Ws, bytes: seq<byte>, env: Env)
    requires ValidCtl(w.ctl) && Drained(w.ctl) && !w.ctl.conn.ReturnedCloseAlready?
    ensures Drained(Run(cfg, w, bytes, env).ws.ctl)
    decreases |bytes|
  {
    hide Step, Spill;
    if bytes != [] {
      var rx, spills := StepSplits(cfg, w, bytes[0], env);
      if spills {
        SpillDrained(cfg, w.(rx := rx), env);
      }
      var o := Step(cfg, w, bytes[0], env);
      if o.ret == 0 {
        RunDrained(cfg, o.ws, bytes[1..], env);
      }
    }
  }

  lemma CloseDrained(l: Link, reason: nat, env: CloseEnv)
    requires Closing.Valid(l) && Drained(l.ws.ctl)
    ensures Drained(CloseFree(l, reason, env).0.ws.ctl)
  {
  }

  lemma NextDrained(cfg: Cfg, l: Link, op: Op)
    requires Closing.Valid(l) && Drained(l.ws.ctl)
    ensures Drained(Next(cfg, l, op).0.ws.ctl)
  {
    hide Run, CloseFree;
    if !l.ws.ctl.conn.DeadSocket? {
      match op
      case Read(bytes, env, close) =>
        if Listens(l.ws.ctl.conn) {
          RunDrained(cfg, l.ws, bytes, env);
          CloseDrained(l.(ws := Run(cfg, l.ws, bytes, env).ws), NOSTATUS, close);
        }
      case Writable(env, close) =>
        if l.ws.ctl.conn.ReturnedCloseAlready? {
          EndsFlushed(SetCtl(l, l.ws.ctl.(conn := FlushingStoredSend)), close);
        }
      case Fail(close) => CloseDrained(SetCtl(l, l.ws.ctl.(unusable := true)), NOSTATUS, close);
      case Close(reason, close) => CloseDrained(l, reason, close);
      case Reason(_, _) =>
      case Write(_) =>
    }
  }

  lemma EndsFlushed(l: Link, close: CloseEnv)
    requires Closing.Valid(l) && l.ws.ctl.conn.FlushingStoredSend? && l.ws.ctl.truncLen == 0
    ensures Drained(CloseFree(l, NOSTATUS, close).0.ws.ctl)
  {
  }

  /**
    * Over every run without a violent end, a connection that flushes goes on flushing exactly while bytes are unsent,
    * by what the socket has taken; with the last of them it is shut down, and it never sends again.
    */
  lemma {:induction false} FlushWaits(cfg: Cfg, l: Link, ops: seq<Op>)
    requires Closing.Valid(l) && Flushes(l.ws.ctl) && forall op | op in ops :: Gentle(op)
    ensures var l', n := RunOps(cfg, l, ops).0, Left(l.ws.ctl.truncLen, ops);
      l'.ws.ctl.truncLen == n && if n > 0 then Flushes(l'.ws.ctl) else Drained(l'.ws.ctl)
    decreases |ops|
  {
    hide Next;
    if ops != [] {
      var l1 := Next(cfg, l, ops[0]).0;
      NextFollows(cfg, l, ops[0]);
      FlushStep(cfg, l, ops[0]);
      if l1.ws.ctl.truncLen > 0 {
        FlushWaits(cfg, l1, ops[1..]);
      } else {
        StaysDrained(cfg, l1, ops[1..]);
      }
    }
  }

  lemma {:induction false} StaysDrained(cfg: Cfg, l: Link, ops: seq<Op>)
    requires Closing.Valid(l) && Drained(l.ws.ctl)
    ensures Drained(RunOps(cfg, l, ops).0.ws.ctl) && Left(0, ops) == 0
    decreases |ops|
  {
    hide Next;
    if ops != [] {
      NextFollows(cfg, l, ops[0]);
      NextDrained(cfg, l, ops[0]);
      StaysDrained(cfg, Next(cfg, l, ops[0]).0, ops[1..]);
    }
  }

  /** The same from the close call on: no byte is given up unless the connection fails or the context ends. */
  lemma CloseWaits(cfg: Cfg, l: Link, reason: nat, env: CloseEnv, ops: seq<Op>)
    requires Closing.Valid(l) && (l.ws.ctl.conn.Established? || l.ws.ctl.conn.ReturnedCloseAlready?)
    requires !l.ws.ctl.unusable && l.ws.ctl.truncLen > 0 && reason != 9999
    requires forall op | op in ops :: Gentle(op)
    ensures var l', n := RunOps(cfg, l, [Close(reason, env)] + ops).0, Left(l.ws.ctl.truncLen, ops);
      l'.ws.ctl.truncLen == n && if n > 0 then Flushes(l'.ws.ctl) else Drained(l'.ws.ctl)
  {
    CloseFlushes(l, reason, env);
    NextFollows(cfg, l, Close(reason, env));
    var l1 := Next(cfg, l, Close(reason, env)).0;
    FlushWaits(cfg, l1, ops);
    hide Next;
    assert ([Close(reason, env)] + ops)[1..] == ops;
  }

  /** Violent ends take effect at once, in every state. */
  lemma ViolentEnd(cfg: Cfg, l: Link, op: Op)
    requires Closing.Valid(l) && !l.ws.ctl.conn.DeadSocket?
    requires op.Fail? || (op.Close? && op.reason == 9999) ||
             (op.Writable? && op.env.socket.Error? && Flushes(l.ws.ctl))
    ensures Next(cfg, l, op).0.ws.ctl.conn.DeadSocket?
  {
  }

  /** What the socket leaves of a data write is what a close call then waits for. */
  lemma DataIsFlushed(cfg: Cfg, l: Link, unsent: nat, reason: nat, env: CloseEnv)
    requires Closing.Valid(l) && l.ws.ctl.conn.Established? && !l.ws.ctl.unusable && l.ws.ctl.truncLen == 0
    requires unsent > 0 && reason != 9999
    ensures var l1 := Next(cfg, l, Write(Partial(unsent))).0;
      && Closing.Valid(l1)
      && Next(cfg, l1, Close(reason, env))
      == (SetCtl(l, l.ws.ctl.(conn := FlushingStoredSend, truncLen := unsent)).(pre := Was(Established)), [])
  {
  }

  /** A data write is without effect where lws_write sends nothing; after a socket error a close call is the end. */
  lemma DataExactly(cfg: Cfg, l: Link, socket: Sent, reason: nat, env: CloseEnv)
    requires Closing.Valid(l) && !l.ws.ctl.conn.DeadSocket?
    ensures var l1 := Next(cfg, l, Write(socket)).0;
      && Closing.Valid(l1)
      && (!l.ws.ctl.conn.Established? || l.ws.ctl.truncLen > 0 || socket.All? || socket.Denied? ==> l1 == l)
      && (l.ws.ctl.conn.Established? && l.ws.ctl.truncLen == 0 && socket.Error? ==>
            Next(cfg, l1, Close(reason, env)).0.ws.ctl.conn.DeadSocket?)
  {
  }

  // ----- a writable socket -----

  /** Unsent bytes come first; a socket that takes none of them for good, or a denied write, closes the connection. */
  lemma UnsentFirst(cfg: Cfg, l: Link, env: Env, close: CloseEnv)
    requires Closing.Valid(l) && !l.ws.ctl.unusable && l.ws.ctl.truncLen > 0
    requires l.ws.ctl.conn.Established? || l.ws.ctl.conn.ReturnedCloseAlready?
    ensures var (l', events) := Next(cfg, l, Writable(env, close));
      && events == (if env.socket.Error? then [Closed]
                    else if env.socket.Denied? && l.ws.ctl.conn.ReturnedCloseAlready? then [WantWritable] else [])
      && if env.socket.Error? then l'.ws.ctl.conn.DeadSocket?
         else l'.ws.ctl == l.ws.ctl.(truncLen := Taken(l.ws.ctl.truncLen, Writable(env, close)),
                                     conn := if env.socket.Denied? then FlushingStoredSend else l.ws.ctl.conn)
  {
  }

  /** With nothing unsent, and no PONG due, the user is asked; who refuses closes the connection. */
  lemma AsksUser(cfg: Cfg, l: Link, env: Env, close: CloseEnv)
    requires Closing.Valid(l) && !l.ws.ctl.unusable && l.ws.ctl.truncLen == 0
    requires (l.ws.ctl.conn.Established? && !l.ws.ctl.pingPending) || l.ws.ctl.conn.ReturnedCloseAlready?
    ensures var (l', events) := Next(cfg, l, Writable(env, close));
      if env.cb == 0 then l' == l && events == []
      else if l.ws.ctl.conn.Established? then (l', events) == Next(cfg, l, Close(0, close))
      else l'.ws.ctl == l.ws.ctl.(conn := ShutDown) && events == []
  {
    hide SayGoodbye;
    var more := CloseFree(l, 0, close).1;
    assert SetCtl(l, l.ws.ctl) == l && [] + more == more;
  }

  /** One that flushes with nothing left is shut down; one that is shut down or awaits a CLOSE is not served. */
  lemma ServesNoMore(cfg: Cfg, l: Link, env: Env, close: CloseEnv)
    requires Closing.Valid(l)
    ensures var (l', events) := Next(cfg, l, Writable(env, close));
      && (l.ws.ctl.conn.FlushingStoredSend? && l.ws.ctl.truncLen == 0 && !l.ws.ctl.unusable ==>
            l'.ws.ctl == l.ws.ctl.(conn := ShutDown) && events == [])
      && (l.ws.ctl.conn.ShutDown? || l.ws.ctl.conn.AwaitingCloseAck? ==> l' == l && events == [])
  {
  }

  /** A close call that is put off for unsent bytes asks for a writable socket. */
  lemma AsksToFlush(l: Link, reason: nat, env: CloseEnv)
    requires Closing.Valid(l) && Flushes(l.ws.ctl) && reason != 9999
    ensures CloseFree(l, reason, env) == (l.(pre := Was(FlushingStoredSend)), [WantWritable])
  {
  }

  // ----- reads -----

  /** What arrives after the answer to a CLOSE, or while unsent bytes are flushed, is not read. */
  lemma Deaf(cfg: Cfg, l: Link, bytes: seq<byte>, env: Env, close: CloseEnv)
    requires Closing.Valid(l) && (l.ws.ctl.conn.ReturnedCloseAlready? || l.ws.ctl.conn.FlushingStoredSend?)
    ensures Next(cfg, l, Read(bytes, env, close)) == (l, [])
  {
  }

  /** The CLOSE that acknowledges an own one shuts the connection down, whatever it says, and is not reported. */
  lemma AckEnds(cfg: Cfg, l: Link, inbox: Delivery.Inbox, f: Delivery.Frame, env: Env, close: CloseEnv)
    requires Closing.Valid(l) && l.ws.ctl.conn.AwaitingCloseAck? && Delivery.Between(cfg, l.ws, inbox)
    requires Delivery.ValidFrame(f) && f.opcode == 8 && 125 <= cfg.bufSize
    ensures var (l', events) := Next(cfg, l, Read(Delivery.Encode(f), env, close));
      l'.ws.ctl == l.ws.ctl.(conn := ShutDown) && events == []
  {
    assert !l.ws.ctl.unusable;
    hide Run, Delivery.Encode, Delivery.Between, Delivery.Allowed, CloseFrame.ReasonOk;
    CloseFrame.CloseFrameRun(cfg, l.ws, inbox, f, env);
    var o := Run(cfg, l.ws, Delivery.Encode(f), env);
    assert o.events == [] && o.ws.ctl == l.ws.ctl;
  }

  /** The first read on a connection marked unusable is its end. */
  lemma UnusableEnds(cfg: Cfg, l: Link, bytes: seq<byte>, env: Env, close: CloseEnv)
    requires Closing.Valid(l) && l.ws.ctl.unusable && bytes != []
    requires l.ws.ctl.conn.Established? || l.ws.ctl.conn.AwaitingCloseAck? || l.ws.ctl.conn.ShutDown?
    ensures var (l', events) := Next(cfg, l, Read(bytes, env, close));
      l'.ws.ctl.conn.DeadSocket? && events == [Closed]
  {
    assert Run(cfg, l.ws, bytes, env) == Outcome(l.ws, [], -1);
  }

  /** A connection at its end is marked unusable and owes no PONG. */
  lemma DeadOwesNothing(cfg: Cfg, l: Link, op: Op)
    requires Closing.Valid(l) && !l.ws.ctl.conn.DeadSocket?
    ensures var ctl := Next(cfg, l, op).0.ws.ctl;
      ctl.conn.DeadSocket? ==> ctl.unusable && !ctl.pingPending && ctl.pingLen == 0
  {
    hide CloseFree, Run;
    match op
    case Read(bytes, env, close) =>
      if Listens(l.ws.ctl.conn) {
        RunLives(cfg, l.ws, bytes, env);
        CloseOwesNothing(l.(ws := Run(cfg, l.ws, bytes, env).ws), 0, close);
      }
    case Writable(env, close) =>
      var conn := l.ws.ctl.conn;
      var ctl := PollOut(l.ws.ctl, env).0;
      var ctl' := if conn.ReturnedCloseAlready? then ctl.(conn := FlushingStoredSend) else ctl;
      CloseOwesNothing(SetCtl(l, ctl'), 0, close);
    case Fail(close) => CloseOwesNothing(SetCtl(l, l.ws.ctl.(unusable := true)), 0, close);
    case Close(reason, close) => CloseOwesNothing(l, reason, close);
    case Reason(_, _) =>
    case Write(_) =>
  }

  lemma CloseOwesNothing(l: Link, reason: nat, env: CloseEnv)
    requires Closing.Valid(l) && !l.ws.ctl.conn.DeadSocket?
    ensures var ctl := CloseFree(l, reason, env).0.ws.ctl;
      ctl.conn.DeadSocket? ==> ctl.unusable && !ctl.pingPending && ctl.pingLen == 0
  {
    hide Mask;
  }

  lemma {:induction false} RunLives(cfg: Cfg, w: Ws, bytes: seq<byte>, env: Env)
    requires ValidCtl(w.ctl) && !w.ctl.conn.DeadSocket?
    ensures !Run(cfg, w, bytes, env).ws.ctl.conn.DeadSocket?
    decreases |bytes|
  {
    hide Step, Spill;
    if bytes != [] {
      var rx, spills := StepSplits(cfg, w, bytes[0], env);
      if spills {
        SpillLives(cfg, w.(rx := rx), env);
      }
      var o := Step(cfg, w, bytes[0], env);
      if o.ret == 0 {
        RunLives(cfg, o.ws, bytes[1..], env);
      }
    }
  }

  lemma SpillLives(cfg: Cfg, w: Ws, env: Env)
    requires ValidCtl(w.ctl) && !w.ctl.conn.DeadSocket?
    ensures !Spill(cfg, w, env).ws.ctl.conn.DeadSocket?
  {
    hide CloseReply, CloseText, CheckChunk, Mask;
  }
}
