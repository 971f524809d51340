/**
  * The closing handshake of a websocket client: lws_close_free_wsi, lws_close_reason, the service
  * of a writable socket and lws_read, as transitions of one connection, and what every run keeps.
  */
module Closing {
  import opened Bytes
  import opened ClientRx

  const NOSTATUS := 0
  const CONTEXT_DESTROY := 9999

  /** state_pre_close: zero is LWSS_HTTP, and only lws_close_free_wsi sets it. */
  datatype PreClose = Http | Was(conn: Conn)

  datatype Link = Link(ws: Ws, pre: PreClose)

  /** The answers lws_close_free_wsi gets: an extension's veto, an extension's failure, the socket's, and the mask. */
  datatype CloseEnv = CloseEnv(veto: bool, extFails: bool, socket: Sent, key: Key)

  datatype Op =
    | Read(bytes: seq<byte>, env: Env, close: CloseEnv)     // lws_read
    | Writable(env: Env, close: CloseEnv)                   // POLLOUT service
    | Fail(close: CloseEnv)                                 // hangup or timeout: closed as unusable
    | Close(reason: nat, close: CloseEnv)                   // any other call of lws_close_free_wsi
    | Reason(status: nat, data: seq<byte>)                  // lws_close_reason
    | Write(socket: Sent)                                   // the user writes data

  predicate Valid(l: Link)
  {
    && ValidCtl(l.ws.ctl)
    && (l.pre.Was? ==> !l.pre.conn.ShutDown? && !l.pre.conn.DeadSocket?)
  }

  function SetCtl(l: Link, ctl: Ctl): Link { l.(ws := l.ws.(ctl := ctl)) }

  // ----- lws_close_reason -----

  /** The status and as much of the data as fits a control frame. */
  function ReasonBytes(status: nat, data: seq<byte>): (r: seq<byte>)
    ensures 2 <= |r| <= PING_BUF
  {
    [status / 256 % 256, status % 256] + data[..if |data| <= PING_BUF - 2 then |data| else PING_BUF - 2]
  }

  function SetReason(ctl: Ctl, r: seq<byte>): Ctl
    requires ValidCtl(ctl) && |r| <= PING_BUF
  {
    ctl.(pingBuf := r + ctl.pingBuf[|r|..], closeLen := |r|)
  }

  /** The shared buffer after its first `n` bytes have been handed to lws_write. */
  function MaskPing(ctl: Ctl, n: nat, key: Key): (r: Ctl)
    requires ValidCtl(ctl) && n <= PING_BUF
    ensures ValidCtl(r)
  {
    ctl.(pingBuf := MaskFront(ctl.pingBuf, n, key))
  }

  // ----- lws_close_free_wsi -----

  /** just_kill_connection: shut down for writing first, and be gone on the next call. */
  function Kill(l: Link, reason: nat): (Link, seq<Event>)
  {
    var ctl := l.ws.ctl;
    if !ctl.conn.ShutDown? && reason != CONTEXT_DESTROY && !ctl.unusable then
      (SetCtl(l, ctl.(conn := ShutDown)), [])
    else
      (SetCtl(l, ctl.(conn := DeadSocket, pingLen := 0, pingPending := false, unusable := true)),
       if TellsClosed(l.pre) then [Closed] else [])
  }

  /** The states before closing in which a websocket client's user is told LWS_CALLBACK_CLOSED. */
  predicate TellsClosed(pre: PreClose)
  {
    pre.Http? || pre.conn.Established? || pre.conn.ReturnedCloseAlready? || pre.conn.AwaitingCloseAck?
    || pre.conn.FlushingStoredSend?
  }

  /** The close frame that says goodbye is due: established, and a reason is known. */
  predicate SaysGoodbye(ctl: Ctl, reason: nat)
  {
    ctl.conn.Established? && (ctl.closeLen > 0 || (reason != NOSTATUS && reason != CONTEXT_DESTROY))
  }

  function Goodbye(ctl: Ctl, reason: nat): Ctl
    requires ValidCtl(ctl)
  {
    if ctl.closeLen > 0 then ctl else SetReason(ctl, [reason / 256 % 256, reason % 256])
  }

  function SayGoodbye(l: Link, reason: nat, socket: Sent, key: Key): (Link, seq<Event>)
    requires Valid(l)
  {
    var said := Goodbye(l.ws.ctl, reason);
    var ctl := if socket.Denied? then said else MaskPing(said, said.closeLen, key);
    var sent := if socket.Denied? then [] else [WriteClose(said.pingBuf[..said.closeLen])];
    if Fails(socket) then
      var (l', events) := Kill(SetCtl(l, Sending(ctl, socket)), reason);
      (l', sent + events)
    else (SetCtl(l, Sending(ctl, socket).(conn := AwaitingCloseAck)), sent)
  }

  function CloseFree(l: Link, reason: nat, env: CloseEnv): (Link, seq<Event>)
    requires Valid(l)
  {
    var ctl := l.ws.ctl;
    var l' := l.(pre := Was(ctl.conn));
    if ctl.conn.DeadSocket? then (l, [])
    else if ctl.unusable || reason == CONTEXT_DESTROY || ctl.conn.ShutDown? then Kill(l, reason)
    else if ctl.conn.AwaitingCloseAck? then Kill(l', reason)
    else if ctl.conn.FlushingStoredSend? then
      if ctl.truncLen > 0 then (l', [WantWritable]) else Kill(l', reason)
    else if ctl.truncLen > 0 then (SetCtl(l', ctl.(conn := FlushingStoredSend)), [])
    else if env.veto then (l', [])
    else if env.extFails then Kill(l', reason)
    else if SaysGoodbye(ctl, reason) then SayGoodbye(l', reason, env.socket, env.key)
    else Kill(l', reason)
  }

  // ----- lws_read and the service of a writable socket -----

  /** lws_read only passes bytes to the receive machine in three states. */
  predicate Listens(conn: Conn)
  {
    conn.Established? || conn.AwaitingCloseAck? || conn.ShutDown?
  }

  function ReadLink(cfg: Cfg, l: Link, bytes: seq<byte>, env: Env, close: CloseEnv): (Link, seq<Event>)
    requires Valid(l)
  {
    if !Listens(l.ws.ctl.conn) then (l, [])
    else
      var o := Run(cfg, l.ws, bytes, env);
      if o.ret == 0 then (l.(ws := o.ws), o.events)
      else
        var (l', events) := CloseFree(l.(ws := o.ws), NOSTATUS, close);
        (l', o.events + events)
  }

  /** lws_handle_POLLOUT_event: the connection, the events, and whether it asks for a close. */
  function PollOut(ctl: Ctl, env: Env): (Ctl, seq<Event>, bool)
    requires ValidCtl(ctl)
  {
    if ctl.truncLen > 0 then
      match env.socket
      case Error => (ctl.(unusable := true), [], true)
      case Denied => (ctl, [], true)
      case All => (ctl.(truncLen := 0), [], ctl.conn.FlushingStoredSend?)
      case Partial(n) => (ctl.(truncLen := if n <= ctl.truncLen then n else ctl.truncLen), [],
                          n == 0 && ctl.conn.FlushingStoredSend?)
    else if ctl.conn.FlushingStoredSend? then (ctl, [], true)
    else if ctl.conn.Established? && ctl.pingPending then
      var sent := if env.socket.Denied? then [] else [WritePong(ctl.pingBuf[..ctl.pingLen])];
      var after := if env.socket.Denied? then ctl else Sending(MaskPing(ctl, ctl.pingLen, env.key), env.socket);
      if Fails(env.socket) then (after, sent, true) else (after.(pingPending := false), sent, false)
    else (ctl, [], env.cb != 0)
  }

  /** lws_service_fd with POLLOUT set. */
  function Service(l: Link, env: Env, close: CloseEnv): (Link, seq<Event>)
    requires Valid(l)
  {
    var conn := l.ws.ctl.conn;
    if !conn.Established? && !conn.ReturnedCloseAlready? && !conn.FlushingStoredSend? then (l, [])
    else
      var (ctl, events, closes) := PollOut(l.ws.ctl, env);
      if !closes then (SetCtl(l, ctl), events)
      else
        var ctl' := if conn.ReturnedCloseAlready? then ctl.(conn := FlushingStoredSend) else ctl;
        var (l', more) := CloseFree(SetCtl(l, ctl'), NOSTATUS, close);
        (l', events + more)
  }

  /** lws_write sends no data outside the established state, and refuses to while earlier bytes are unsent. */
  function WriteData(l: Link, socket: Sent): Link
  {
    if l.ws.ctl.conn.Established? && l.ws.ctl.truncLen == 0 then SetCtl(l, Sending(l.ws.ctl, socket)) else l
  }

  /** One thing that happens to the connection; a dead one is freed and nothing more happens to it. */
  function Next(cfg: Cfg, l: Link, op: Op): (Link, seq<Event>)
    requires Valid(l)
  {
    if l.ws.ctl.conn.DeadSocket? then (l, [])
    else
      match op
      case Read(bytes, env, close) => ReadLink(cfg, l, bytes, env, close)
      case Writable(env, close) => Service(l, env, close)
      case Fail(close) => CloseFree(SetCtl(l, l.ws.ctl.(unusable := true)), NOSTATUS, close)
      case Close(reason, close) => CloseFree(l, reason, close)
      case Reason(status, data) => (SetCtl(l, SetReason(l.ws.ctl, ReasonBytes(status, data))), [])
      case Write(socket) => (WriteData(l, socket), [])
  }

  // ----- what the receive machine can do to the connection -----

  function Count(events: seq<Event>, closed: bool): nat
  {
    if events == [] then 0
    else (if (if closed then events[0].Closed? else events[0].WriteClose?) then 1 else 0) + Count(events[1..], closed)
  }

  lemma {:induction false} CountConcat(a: seq<Event>, b: seq<Event>, closed: bool)
    ensures Count(a + b, closed) == Count(a, closed) + Count(b, closed)
  {
    if a == [] {
      assert a + b == b;
    } else {
      assert (a + b)[1..] == a[1..] + b;
      CountConcat(a[1..], b, closed);
    }
  }

  lemma CountOne(e: Event)
    ensures Count([e], true) == if e.Closed? then 1 else 0
    ensures Count([e], false) == if e.WriteClose? then 1 else 0
  {
    assert [e][1..] == [];
  }

  /** Receiving never announces the end, and writes at most one CLOSE, which ends the established state. */
  predicate Receives(ctl: Ctl, o: Outcome)
  {
    var ctl' := o.ws.ctl;
    && ctl'.closeLen == ctl.closeLen
    && (ctl.closeLen > 0 ==> ctl'.pingBuf == ctl.pingBuf)
    && (o.ret == 0 ==> ctl'.truncLen == ctl.truncLen)
    && Count(o.events, true) == 0
    && (if ctl'.conn == ctl.conn then Count(o.events, false) == 0
        else ctl'.conn.ReturnedCloseAlready? && o.ret != 0 &&
             Count(o.events, false) <= (if ctl.conn.Established? then 1 else 0))
  }

  lemma SpillReceives(cfg: Cfg, w: Ws, env: Env)
    requires ValidCtl(w.ctl) && !w.ctl.conn.ReturnedCloseAlready?
    ensures Receives(w.ctl, Spill(cfg, w, env))
  {
    if w.rx.head.opcode == CLOSE {
      CloseReceives(cfg, w, env);
    } else {
      OtherReceives(cfg, w, env);
    }
  }

  lemma OtherReceives(cfg: Cfg, w: Ws, env: Env)
    requires ValidCtl(w.ctl) && w.rx.head.opcode != CLOSE
    ensures Receives(w.ctl, Spill(cfg, w, env))
  {
    hide SpillClose, CheckChunk;
    CountOne(WantWritable);
    CountOne(ReceivePing(w.rx.ubuf));
    CountConcat([ReceivePing(w.rx.ubuf)], [WantWritable], true);
    CountConcat([ReceivePing(w.rx.ubuf)], [WantWritable], false);
    assert [ReceivePing(w.rx.ubuf)] + [WantWritable] == [ReceivePing(w.rx.ubuf), WantWritable];
    CountOne(ReceivePong(w.rx.ubuf));
    CountOne(Receive(w.rx.ubuf, w.rx.head.frameIsBinary, FinalFragment(w.rx)));
  }

  lemma CloseReceives(cfg: Cfg, w: Ws, env: Env)
    requires ValidCtl(w.ctl) && !w.ctl.conn.ReturnedCloseAlready?
    ensures Receives(w.ctl, SpillClose(cfg, w, env))
  {
    hide CloseReply, CloseText;
    var reply := CloseReply(w.rx.ubuf);
    CountOne(PeerClose(reply));
    CountOne(WriteClose(reply));
    CountConcat([PeerClose(reply)], [WriteClose(reply)], false);
    CountConcat([PeerClose(reply)], [WriteClose(reply)], true);
    assert [PeerClose(reply)] + [WriteClose(reply)] == [PeerClose(reply), WriteClose(reply)];
  }

  lemma {:induction false} RunReceives(cfg: Cfg, w: Ws, bytes: seq<byte>, env: Env)
    requires ValidCtl(w.ctl) && !w.ctl.conn.ReturnedCloseAlready?
    ensures Receives(w.ctl, Run(cfg, w, bytes, env))
    decreases |bytes|
  {
    hide Step, Spill;
    if bytes != [] {
      var o := Step(cfg, w, bytes[0], env);
      var rx, spills := StepSplits(cfg, w, bytes[0], env);
      if spills {
        SpillReceives(cfg, w.(rx := rx), env);
      }
      if o.ret == 0 {
        RunReceives(cfg, o.ws, bytes[1..], env);
        var r := Run(cfg, o.ws, bytes[1..], env);
        CountConcat(o.events, r.events, true);
        CountConcat(o.events, r.events, false);
      }
    }
  }

  // ----- every run -----

  /** What is left of the closing handshake. */
  function Rank(conn: Conn): nat
  {
    match conn
    case Established | ReturnedCloseAlready => 3
    case AwaitingCloseAck | FlushingStoredSend => 2
    case ShutDown => 1
    case DeadSocket => 0
  }

  /** `l'` follows `l`, `events` happening on the way: at most one CLOSE, LWS_CALLBACK_CLOSED exactly at the end. */
  predicate Follows(l: Link, l': Link, events: seq<Event>)
  {
    && Valid(l')
    && Count(events, false) <= (if l.ws.ctl.conn.Established? then 1 else 0)
    && (l'.ws.ctl.conn.Established? ==> l.ws.ctl.conn.Established? && Count(events, false) == 0)
    && Count(events, true) == (if l'.ws.ctl.conn.DeadSocket? && !l.ws.ctl.conn.DeadSocket? then 1 else 0)
    && (l.ws.ctl.conn.DeadSocket? ==> l' == l)
  }

  lemma FollowsTwice(l: Link, l1: Link, l2: Link, a: seq<Event>, b: seq<Event>)
    requires Follows(l, l1, a) && Follows(l1, l2, b)
    ensures Follows(l, l2, a + b)
  {
    CountConcat(a, b, true);
    CountConcat(a, b, false);
  }

  lemma KillFollows(l: Link, reason: nat)
    requires Valid(l) && !l.ws.ctl.conn.DeadSocket?
    ensures var (l', events) := Kill(l, reason);
      && Follows(l, l', events)
      && Count(events, false) == 0
      && Rank(l'.ws.ctl.conn) < Rank(l.ws.ctl.conn)
      && !l'.ws.ctl.conn.Established?
  {
    assert Count([Closed], true) == 1 && Count([Closed], false) == 0;
  }

  lemma GoodbyeFollows(l: Link, reason: nat, socket: Sent, key: Key)
    requires Valid(l) && l.ws.ctl.conn.Established?
    ensures var (l', events) := SayGoodbye(l, reason, socket, key);
      Follows(l, l', events) && Rank(l'.ws.ctl.conn) < Rank(l.ws.ctl.conn)
  {
    hide Kill, Mask;
    var said := Goodbye(l.ws.ctl, reason);
    var ctl := if socket.Denied? then said else MaskPing(said, said.closeLen, key);
    var sent := if socket.Denied? then [] else [WriteClose(said.pingBuf[..said.closeLen])];
    assert Count(sent, false) <= 1 && Count(sent, true) == 0;
    if Fails(socket) {
      var mid := SetCtl(l, Sending(ctl, socket));
      KillFollows(mid, reason);
      var (l', events) := Kill(mid, reason);
      CountConcat(sent, events, false);
      CountConcat(sent, events, true);
    }
  }

  /** The close call is put off: unsent bytes in the flushing state, or an extension's veto. */
  predicate PutOff(ctl: Ctl, reason: nat, env: CloseEnv)
  {
    && !ctl.unusable && reason != CONTEXT_DESTROY
    && (|| (ctl.conn.FlushingStoredSend? && ctl.truncLen > 0)
        || ((ctl.conn.Established? || ctl.conn.ReturnedCloseAlready?) && ctl.truncLen == 0 && env.veto))
  }

  /** Every close call that is not put off brings the connection nearer to its end, and no other does. */
  lemma CloseProgress(l: Link, reason: nat, env: CloseEnv)
    requires Valid(l) && !l.ws.ctl.conn.DeadSocket?
    ensures var (l', events) := CloseFree(l, reason, env);
      && Follows(l, l', events)
      && (Rank(l'.ws.ctl.conn) < Rank(l.ws.ctl.conn) <==> !PutOff(l.ws.ctl, reason, env))
  {
    hide Kill, SayGoodbye;
    var ctl := l.ws.ctl;
    var l0 := l.(pre := Was(ctl.conn));
    KillFollows(l, reason);
    if !ctl.conn.ShutDown? {
      KillFollows(l0, reason);
    }
    if ctl.conn.Established? {
      GoodbyeFollows(l0, reason, env.socket, env.key);
    }
    assert Count([WantWritable], true) == 0 && Count([WantWritable], false) == 0;
  }

  lemma ReadFollows(cfg: Cfg, l: Link, bytes: seq<byte>, env: Env, close: CloseEnv)
    requires Valid(l) && !l.ws.ctl.conn.DeadSocket?
    ensures var (l', events) := ReadLink(cfg, l, bytes, env, close); Follows(l, l', events)
  {
    hide Run, CloseFree;
    if Listens(l.ws.ctl.conn) {
      RunReceives(cfg, l.ws, bytes, env);
      var o := Run(cfg, l.ws, bytes, env);
      var mid := l.(ws := o.ws);
      if o.ret != 0 {
        CloseProgress(mid, NOSTATUS, close);
        var (l', events) := CloseFree(mid, NOSTATUS, close);
        FollowsTwice(l, mid, l', o.events, events);
      }
    }
  }

  lemma ServiceFollows(l: Link, env: Env, close: CloseEnv)
    requires Valid(l) && !l.ws.ctl.conn.DeadSocket?
    ensures var (l', events) := Service(l, env, close); Follows(l, l', events)
  {
    hide CloseFree, PollOut;
    var conn := l.ws.ctl.conn;
    var (ctl, events, closes) := PollOut(l.ws.ctl, env);
    PollOutSilent(l.ws.ctl, env);
    if closes {
      var mid := SetCtl(l, if conn.ReturnedCloseAlready? then ctl.(conn := FlushingStoredSend) else ctl);
      CloseProgress(mid, NOSTATUS, close);
      var (l', more) := CloseFree(mid, NOSTATUS, close);
      FollowsTwice(l, mid, l', events, more);
    }
  }

  lemma PollOutSilent(ctl: Ctl, env: Env)
    requires ValidCtl(ctl)
    ensures var (ctl', events, _) := PollOut(ctl, env);
      ValidCtl(ctl') && ctl'.conn == ctl.conn && Count(events, true) == 0 && Count(events, false) == 0
  {
  }

  lemma NextFollows(cfg: Cfg, l: Link, op: Op)
    requires Valid(l)
    ensures var (l', events) := Next(cfg, l, op); Follows(l, l', events)
  {
    hide CloseFree, ReadLink, Service;
    if !l.ws.ctl.conn.DeadSocket? {
      match op
      case Read(bytes, env, close) => ReadFollows(cfg, l, bytes, env, close);
      case Writable(env, close) => ServiceFollows(l, env, close);
      case Fail(close) =>
        var failed := SetCtl(l, l.ws.ctl.(unusable := true));
        CloseProgress(failed, NOSTATUS, close);
      case Close(reason, close) => CloseProgress(l, reason, close);
      case Reason(status, data) =>
      case Write(_) =>
    }
  }

  function RunOps(cfg: Cfg, l: Link, ops: seq<Op>): (Link, seq<Event>)
    requires Valid(l)
    decreases |ops|
  {
    if ops == [] then (l, [])
    else
      var (l1, a) := Next(cfg, l, ops[0]);
      NextFollows(cfg, l, ops[0]);
      var (l2, b) := RunOps(cfg, l1, ops[1..]);
      (l2, a + b)
  }

  /**
    * Over every interleaving of received bytes, writable events, failures, close reasons and close calls,
    * at most one CLOSE frame is written, and LWS_CALLBACK_CLOSED is issued once when the connection dies.
    */
  lemma {:induction false} ClosesOnce(cfg: Cfg, l: Link, ops: seq<Op>)
    requires Valid(l)
    ensures var (l', trace) := RunOps(cfg, l, ops); Follows(l, l', trace)
    decreases |ops|
  {
    hide Next;
    if ops != [] {
      var (l1, a) := Next(cfg, l, ops[0]);
      NextFollows(cfg, l, ops[0]);
      ClosesOnce(cfg, l1, ops[1..]);
      var (l2, b) := RunOps(cfg, l1, ops[1..]);
      FollowsTwice(l, l1, l2, a, b);
    }
  }

  // ----- getting to the end -----

  /** None of the close calls is put off when its turn comes. */
  predicate NonePutOff(l: Link, calls: seq<(nat, CloseEnv)>)
    requires Valid(l)
    decreases |calls|
  {
    calls == [] || l.ws.ctl.conn.DeadSocket? ||
    (CloseProgress(l, calls[0].0, calls[0].1);
     !PutOff(l.ws.ctl, calls[0].0, calls[0].1) &&
     NonePutOff(CloseFree(l, calls[0].0, calls[0].1).0, calls[1..]))
  }

  function CloseAll(l: Link, calls: seq<(nat, CloseEnv)>): Link
    requires Valid(l)
    decreases |calls|
  {
    if calls == [] || l.ws.ctl.conn.DeadSocket? then l
    else
      CloseProgress(l, calls[0].0, calls[0].1);
      CloseAll(CloseFree(l, calls[0].0, calls[0].1).0, calls[1..])
  }

  /** Three close calls that are not put off always reach the end, from every state. */
  lemma {:induction false} CloseReachesEnd(l: Link, calls: seq<(nat, CloseEnv)>)
    requires Valid(l) && NonePutOff(l, calls) && Rank(l.ws.ctl.conn) <= |calls|
    ensures CloseAll(l, calls).ws.ctl.conn.DeadSocket?
    decreases |calls|
  {
    hide CloseFree;
    if calls != [] && !l.ws.ctl.conn.DeadSocket? {
      CloseProgress(l, calls[0].0, calls[0].1);
      CloseReachesEnd(CloseFree(l, calls[0].0, calls[0].1).0, calls[1..]);
    }
  }
}
