/**
  * The byte-at-a-time receive machine of a websocket client (lws_client_rx_sm) as a pure step
  * function, for a connection with spec revision 13 and no active extension.
  */
module ClientRx {
  import opened Bytes
  import Utf8

  const CONTINUATION := 0
  const TEXT := 1
  const BINARY := 2
  const CLOSE := 8
  const PING := 9
  const PONG := 10

  /** The room for a control payload in ping_payload_buf, after LWS_PRE: 128 - 3. */
  const PING_BUF := 125

  /** lws_rx_parse_state; Len64(n) waits for length byte n of 8..1, Key(n) for mask byte n of 1..4. */
  datatype Parse = New | HdrLen | Len16Hi | Len16Lo | Len64(n: nat) | Key(n: nat) | Payload

  /** The connection states a websocket client can be in (enum lws_connection_states). */
  datatype Conn =
    | Established
    | ReturnedCloseAlready
    | AwaitingCloseAck
    | FlushingStoredSend
    | ShutDown
    | DeadSocket

  /** What the first header byte leaves behind for the frame and the message. */
  datatype Head = Head(
    opcode: nat,
    final: bool,
    continuationPossible: bool,
    owedAFin: bool,
    frameIsBinary: bool)

  /** check_utf8, defeat_check_utf8 and the checker's state byte. */
  datatype Text = Text(check: bool, defeat: bool, state: byte)

  /** this_frame_masked, mask, mask_idx and all_zero_nonce. */
  datatype Masking = Masking(on: bool, key: seq<byte>, idx: byte, allZero: bool)

  /** The receive fields of struct _lws_websocket_related. */
  datatype Rx = Rx(
    parse: Parse,
    head: Head,
    text: Text,
    masking: Masking,
    packetLength: nat,
    ubuf: seq<byte>)          // rx_ubuf[LWS_PRE .. LWS_PRE + rx_ubuf_head]

  /** The fields that the receive machine shares with the sending and closing side. */
  datatype Ctl = Ctl(
    conn: Conn,
    unusable: bool,           // socket_is_permanently_unusable
    truncLen: nat,            // unsent bytes of a partial send
    pingBuf: seq<byte>,       // ping_payload_buf, also used for a close reason
    pingLen: nat,
    pingPending: bool,
    closeLen: nat,            // close_in_ping_buffer_len
    awaitingPong: bool        // pending_timeout == PENDING_TIMEOUT_WS_PONG_CHECK_GET_PONG
  )

  datatype Ws = Ws(rx: Rx, ctl: Ctl)

  /** The rx buffer size in force and LWS_SERVER_OPTION_VALIDATE_UTF8. */
  datatype Cfg = Cfg(bufSize: nat, validateUtf8: bool)

  /**
    * How a write goes: all of it, all but n bytes of it, not at all with the socket marked unusable, or denied by
    * lws_write before it comes to the socket.
    */
  datatype Sent = All | Partial(unsent: nat) | Error | Denied

  /** A frame's mask. */
  type Key = k: seq<byte> | |k| == 4 witness [0, 0, 0, 0]

  /** What the world answers during one call: the user callback's return value, the socket, and the random mask. */
  datatype Env = Env(cb: int, socket: Sent, key: Key)

  datatype Event =
    | Receive(data: seq<byte>, binary: bool, finalFragment: bool)   // LWS_CALLBACK_CLIENT_RECEIVE
    | ReceivePong(data: seq<byte>)                                  // LWS_CALLBACK_CLIENT_RECEIVE_PONG
    | ReceivePing(data: seq<byte>)                                  // a PING is in; no callback is told
    | PeerClose(data: seq<byte>)                                    // LWS_CALLBACK_WS_PEER_INITIATED_CLOSE
    | WriteClose(data: seq<byte>)                                   // a CLOSE frame handed to the socket
    | WritePong(data: seq<byte>)                                    // a PONG frame handed to the socket
    | WantWritable                                                  // lws_callback_on_writable
    | Closed                                                        // LWS_CALLBACK_CLOSED

  datatype Outcome = Outcome(ws: Ws, events: seq<Event>, ret: int)

  predicate ValidCtl(ctl: Ctl)
  {
    && |ctl.pingBuf| == PING_BUF
    && ctl.pingLen <= PING_BUF
    && ctl.closeLen <= PING_BUF
  }

  /** Exclusive or of the bits that count in a number below `m`, a power of two, from the lowest on. */
  function XorBelow(a: nat, b: nat, m: nat): (r: nat)
    ensures 0 < m ==> r < m
  {
    if m <= 1 then 0 else (if a % 2 == b % 2 then 0 else 1) + 2 * XorBelow(a / 2, b / 2, m / 2)
  }

  function Xor(a: byte, b: byte): byte { XorBelow(a, b, 256) }

  function Pow256(k: nat): nat { if k == 0 then 1 else 256 * Pow256(k - 1) }

  // ----- lws_write and lws_is_final_fragment -----

  /** lws_write only sends while established, or a CLOSE while the closing handshake is under way. */
  predicate MayWrite(conn: Conn, isClose: bool)
  {
    conn.Established? || (isClose && (conn.ReturnedCloseAlready? || conn.AwaitingCloseAck?))
  }

  /** The effect of lws_write on the connection, once it is allowed to send. */
  function Sending(ctl: Ctl, socket: Sent): Ctl
  {
    match socket
    case All => ctl
    case Partial(n) => ctl.(truncLen := n)
    case Error => ctl.(unusable := true)
    case Denied => ctl
  }

  predicate Fails(socket: Sent) { socket.Error? || socket.Denied? }

  /** Section 5.3 of RFC 6455. */
  function Mask(data: seq<byte>, key: Key): (r: seq<byte>)
    ensures |r| == |data| && forall i | 0 <= i < |data| :: r[i] == Xor(data[i], key[i % 4])
  {
    seq(|data|, i requires 0 <= i < |data| => Xor(data[i], key[i % 4]))
  }

  /** A client's lws_write masks the `n` bytes it is given where they lie. */
  function MaskFront(buf: seq<byte>, n: nat, key: Key): (r: seq<byte>)
    requires n <= |buf|
    ensures |r| == |buf|
  {
    Mask(buf[..n], key) + buf[n..]
  }

  function WithUtf8(rx: Rx, state: byte): Rx { rx.(text := rx.text.(state := state)) }

  predicate FinalFragment(rx: Rx) { rx.head.final && rx.packetLength == 0 }

  // ----- LWS_RXPS_NEW: the first header byte -----

  predicate KnownOpcode(op: nat) { op <= BINARY || CLOSE <= op <= PONG }

  function OpcodeText(validateUtf8: bool, t: Text, op: nat): Text
  {
    if op == TEXT then Text(validateUtf8, false, 0)
    else if op == BINARY then Text(false, false, t.state)
    else if op == CLOSE then Text(false, false, 0)
    else t.(defeat := op == PING || op == PONG)
  }

  /** The frame and message flags once the first header byte is accepted. */
  function TakenHead(h: Head, op: nat, fin: bool): Head
  {
    var control := op >= 8;
    Head(op, fin,
         if control then h.continuationPossible else !fin,
         if control then h.owedAFin else !fin,
         if op == TEXT || op == BINARY then op == BINARY else h.frameIsBinary)
  }

  /** The same flags where the byte is refused, by how far the checks got. */
  function RefusedHead(h: Head, op: nat, known: bool, fin: Option<bool>): Head
  {
    h.(opcode := op,
       continuationPossible := h.continuationPossible || (known && (op == TEXT || op == BINARY)),
       final := fin.GetOr(h.final))
  }

  /** The receive fields after the first header byte, and whether the byte is taken (not refused with -1). */
  function OnNew(validateUtf8: bool, rx: Rx, c: byte): (Rx, bool)
  {
    var op := c % 16;
    var fin := c >= 128;
    var known := KnownOpcode(op) && (op == CONTINUATION ==> rx.head.continuationPossible);
    if !known then
      (rx.(head := RefusedHead(rx.head, op, false, None), text := rx.text.(defeat := false)), false)
    else
      var rx' := rx.(text := OpcodeText(validateUtf8, rx.text, op));
      if c / 16 % 8 != 0 then (rx'.(head := RefusedHead(rx.head, op, true, None)), false)
      else if (rx.head.owedAFin && (op == TEXT || op == BINARY)) || (op >= 8 && !fin) then
        (rx'.(head := RefusedHead(rx.head, op, true, Some(fin))), false)
      else (rx'.(head := TakenHead(rx.head, op, fin), parse := HdrLen), true)
  }

  // ----- spill: a whole frame is in, or the rx buffer is full -----

  predicate BadCloseCode(code: nat)
  {
    code < 1000 || code == 1004 || code == 1005 || code == 1006 || 1012 <= code < 3000
  }

  /** The payload that answers a CLOSE: the peer's own, with 1002 for a code it must not send. */
  function CloseReply(ubuf: seq<byte>): (r: seq<byte>)
    ensures |r| == |ubuf|
  {
    if |ubuf| >= 2 && BadCloseCode(ubuf[0] as int * 256 + ubuf[1]) then [3, 234] + ubuf[2..] else ubuf
  }

  /** The peer's CLOSE is reported and, unless a partial send is in the way, answered. */
  function AnswerClose(ctl: Ctl, reply: seq<byte>, env: Env): (Ctl, seq<Event>)
  {
    if env.cb != 0 then (ctl, [PeerClose(reply)])
    else if ctl.truncLen > 0 then
      (ctl.(unusable := true, conn := ReturnedCloseAlready), [PeerClose(reply)])
    else if MayWrite(ctl.conn, true) && !env.socket.Denied? then
      (Sending(ctl, env.socket).(conn := ReturnedCloseAlready), [PeerClose(reply), WriteClose(reply)])
    else
      (ctl.(conn := ReturnedCloseAlready), [PeerClose(reply)])
  }

  /** The answer is handed to the socket. */
  predicate Answered(ctl: Ctl, env: Env)
  {
    env.cb == 0 && ctl.truncLen == 0 && MayWrite(ctl.conn, true) && !env.socket.Denied?
  }

  /** The check of the text after the close code. */
  function CloseText(cfg: Cfg, rx: Rx): Option<byte>
  {
    if cfg.validateUtf8 && |rx.ubuf| > 2 then Utf8.Scan(rx.text.state, rx.ubuf[2..]) else Some(rx.text.state)
  }

  function SpillClose(cfg: Cfg, w: Ws, env: Env): Outcome
  {
    var u := CloseText(cfg, w.rx);
    if u.None? then Outcome(w, [], -1)
    else if w.ctl.conn.AwaitingCloseAck? then Outcome(w.(rx := WithUtf8(w.rx, u.value)), [], -1)
    else
      var reply := CloseReply(w.rx.ubuf);
      var (ctl, events) := AnswerClose(w.ctl, reply, env);
      var left := if Answered(w.ctl, env) then Mask(reply, env.key) else reply;
      Outcome(Ws(WithUtf8(w.rx, u.value).(ubuf := left), ctl), events, -1)
  }

  /** A PING is stashed for the reply unless a close reason or an earlier PING holds the buffer. */
  predicate PingDropped(ctl: Ctl, data: seq<byte>)
  {
    ctl.closeLen > 0 || ctl.pingPending || |data| > PING_BUF
  }

  function StashPing(ctl: Ctl, data: seq<byte>): Ctl
    requires ValidCtl(ctl) && |data| <= PING_BUF
  {
    ctl.(pingBuf := data + ctl.pingBuf[|data|..], pingLen := |data|, pingPending := true)
  }

  function SpillPing(w: Ws): (o: Outcome)
    requires ValidCtl(w.ctl)
    ensures ValidCtl(o.ws.ctl)
  {
    var rx' := w.rx.(ubuf := []);
    if PingDropped(w.ctl, w.rx.ubuf) then Outcome(Ws(rx', w.ctl), [ReceivePing(w.rx.ubuf)], 0)
    else Outcome(Ws(rx', StashPing(w.ctl, w.rx.ubuf)), [ReceivePing(w.rx.ubuf), WantWritable], 0)
  }

  /** The incremental UTF-8 check of a data chunk: the new checker state, or None where it is refused. */
  function CheckChunk(rx: Rx): Option<byte>
  {
    if !rx.text.check || rx.text.defeat then Some(rx.text.state)
    else
      var u := Utf8.Scan(rx.text.state, rx.ubuf);
      if u.Some? && FinalFragment(rx) && u.value != 0 then None else u
  }

  function SpillUp(w: Ws, event: Event, env: Env): Outcome
  {
    var u := CheckChunk(w.rx);
    if u.None? then
      Outcome(w.(rx := WithUtf8(w.rx, Utf8.Scan(w.rx.text.state, w.rx.ubuf).GetOr(w.rx.text.state))), [], -1)
    else
      var rx' := WithUtf8(w.rx, u.value);
      if w.ctl.conn.ReturnedCloseAlready? || w.ctl.conn.AwaitingCloseAck? then
        Outcome(Ws(rx'.(ubuf := []), w.ctl), [], 0)
      else if env.cb != 0 then Outcome(Ws(rx', w.ctl), [event], 1)
      else Outcome(Ws(rx'.(ubuf := []), w.ctl), [event], 0)
  }

  function Spill(cfg: Cfg, w: Ws, env: Env): (o: Outcome)
    requires ValidCtl(w.ctl)
    ensures ValidCtl(o.ws.ctl)
  {
    var op := w.rx.head.opcode;
    if op == CLOSE then SpillClose(cfg, w, env)
    else if op == PING then SpillPing(w)
    else if op == PONG then
      SpillUp(w.(ctl := w.ctl.(awaitingPong := false)), ReceivePong(w.rx.ubuf), env)
    else if op <= BINARY then
      SpillUp(w, Receive(w.rx.ubuf, w.rx.head.frameIsBinary, FinalFragment(w.rx)), env)
    else
      // an opcode no extension handles
      Outcome(w.(rx := w.rx.(ubuf := [])), [], 0)
  }

  // ----- the length and mask bytes, and the payload -----

  function Continue(w: Ws, rx: Rx): Outcome { Outcome(w.(rx := rx), [], 0) }

  function Refuse(w: Ws, rx: Rx): Outcome { Outcome(w.(rx := rx), [], -1) }

  /** The length is known and no mask follows: payload comes next, or an empty frame is spilled. */
  function StartPayload(cfg: Cfg, w: Ws, rx: Rx, env: Env): (o: Outcome)
    requires ValidCtl(w.ctl)
    ensures ValidCtl(o.ws.ctl)
  {
    if rx.packetLength > 0 then Continue(w, rx.(parse := Payload))
    else Spill(cfg, w.(rx := rx.(parse := New)), env)
  }

  function LengthDone(cfg: Cfg, w: Ws, rx: Rx, env: Env): (o: Outcome)
    requires ValidCtl(w.ctl)
    ensures ValidCtl(o.ws.ctl)
  {
    if rx.masking.on then Continue(w, rx.(parse := Key(1)))
    else StartPayload(cfg, w, rx, env)
  }

  function OnHdrLen(cfg: Cfg, w: Ws, c: byte, env: Env): (o: Outcome)
    requires ValidCtl(w.ctl)
    ensures ValidCtl(o.ws.ctl)
  {
    var rx := w.rx.(masking := w.rx.masking.(on := c >= 128));
    if c % 128 >= 126 then
      if rx.head.opcode / 8 % 2 == 1 then Refuse(w, rx)
      else Continue(w, rx.(parse := if c % 128 == 126 then Len16Hi else Len64(8)))
    else
      // the mask bit is stored as part of the length
      LengthDone(cfg, w, rx.(packetLength := c), env)
  }

  function OnKey(cfg: Cfg, w: Ws, c: byte, env: Env): (o: Outcome)
    requires ValidCtl(w.ctl) && w.rx.parse.Key?
    ensures ValidCtl(o.ws.ctl)
  {
    var n := w.rx.parse.n;
    var m := w.rx.masking;
    var rx := w.rx.(masking := m.(key := if 1 <= n <= |m.key| then m.key[n - 1 := c] else m.key,
                                  allZero := m.allZero && c == 0));
    if n < 4 then Continue(w, rx.(parse := Key(n + 1)))
    else StartPayload(cfg, w, rx, env)
  }

  /** size_t decrement. */
  function Decrement(n: nat): nat { if n == 0 then 0xFFFF_FFFF_FFFF_FFFF else n - 1 }

  function Unmask(rx: Rx, c: byte): (Rx, byte)
  {
    var m := rx.masking;
    if m.on && !m.allZero && m.idx % 4 < |m.key| then
      (rx.(masking := m.(idx := (m.idx as int + 1) % 256)), Xor(c, m.key[m.idx % 4]))
    else (rx, c)
  }

  function OnPayload(cfg: Cfg, w: Ws, c: byte, env: Env): (o: Outcome)
    requires ValidCtl(w.ctl)
    ensures ValidCtl(o.ws.ctl)
  {
    var (rx0, b) := Unmask(w.rx, c);
    var rx := rx0.(ubuf := rx0.ubuf + [b], packetLength := Decrement(rx0.packetLength));
    if rx.packetLength == 0 then Spill(cfg, w.(rx := rx.(parse := New)), env)
    else if |rx.ubuf| != cfg.bufSize then Continue(w, rx)
    else Spill(cfg, w.(rx := rx), env)
  }

  /** One call of lws_client_rx_sm. */
  function Step(cfg: Cfg, w: Ws, c: byte, env: Env): (o: Outcome)
    requires ValidCtl(w.ctl)
    ensures ValidCtl(o.ws.ctl)
  {
    var rx := w.rx;
    if w.ctl.unusable then Outcome(w, [], -1)
    else
      match rx.parse
      case New =>
        var (rx', ok) := OnNew(cfg.validateUtf8, rx, c);
        if ok then Continue(w, rx') else Refuse(w, rx')
      case HdrLen => OnHdrLen(cfg, w, c, env)
      case Len16Hi => Continue(w, rx.(packetLength := c as int * 256, parse := Len16Lo))
      case Len16Lo => LengthDone(cfg, w, rx.(packetLength := rx.packetLength + c), env)
      case Len64(n) =>
        if n >= 8 then
          if c >= 128 then Refuse(w, rx)
          else Continue(w, rx.(packetLength := c * Pow256(7), parse := Len64(7)))
        else if n > 1 then
          Continue(w, rx.(packetLength := rx.packetLength + c * Pow256(n - 1), parse := Len64(n - 1)))
        else LengthDone(cfg, w, rx.(packetLength := rx.packetLength + c), env)
      case Key(n) => OnKey(cfg, w, c, env)
      case Payload => OnPayload(cfg, w, c, env)
  }

  /** A byte only changes the receive fields, or it spills. */
  lemma StepSplits(cfg: Cfg, w: Ws, c: byte, env: Env) returns (rx: Rx, spills: bool)
    requires ValidCtl(w.ctl)
    ensures var o := Step(cfg, w, c, env);
      if spills then o == Spill(cfg, w.(rx := rx), env) else o == Outcome(w.(rx := rx), [], o.ret)
  {
    hide Spill;
    rx := Step(cfg, w, c, env).ws.rx;
    spills := false;
    if !w.ctl.unusable && Step(cfg, w, c, env) != Outcome(w.(rx := rx), [], Step(cfg, w, c, env).ret) {
      spills := true;
      rx :| Step(cfg, w, c, env) == Spill(cfg, w.(rx := rx), env);
    }
  }

  /** The byte loop of lws_handshake_client while rx flow is allowed. */
  function Run(cfg: Cfg, w: Ws, bytes: seq<byte>, env: Env): (o: Outcome)
    requires ValidCtl(w.ctl)
    ensures ValidCtl(o.ws.ctl)
    decreases |bytes|
  {
    if bytes == [] then Outcome(w, [], 0)
    else
      var o := Step(cfg, w, bytes[0], env);
      if o.ret != 0 then o
      else
        var r := Run(cfg, o.ws, bytes[1..], env);
        Outcome(r.ws, o.events + r.events, r.ret)
  }
}
