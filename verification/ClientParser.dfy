/**
  * lws_client_rx_sm and lws_handshake_client as they are written: methods that update the fields of a
  * connection and its fixed buffers in place, proved against the step function of ClientRx.
  */
module ClientParser {
  import opened Bytes
  import opened ClientRx
  import Closing
  import Delivery
  import RxRoom
  import Utf8

  /** The masking loop of lws_write, which works where the payload lies. */
  method MaskPayload(buf: array<byte>, n: nat, key: Key)
    requires n <= buf.Length
    modifies buf
    ensures buf[..] == MaskFront(old(buf[..]), n, key)
  {
    var i, maskIdx := 0, 0;
    while i < n
      invariant 0 <= i <= n && maskIdx == i % 4
      invariant forall k | 0 <= k < i :: buf[k] == Xor(old(buf[k]), key[k % 4])
      invariant forall k | i <= k < buf.Length :: buf[k] == old(buf[k])
    {
      buf[i] := Xor(buf[i], key[maskIdx]);
      i, maskIdx := i + 1, (maskIdx + 1) % 4;
    }
  }

  class Wsi {
    // the frame and message being received
    var parse: Parse
    var head: Head
    var text: Text
    var masking: Masking
    var packetLength: nat
    const rxUbuf: array<byte>
    var rxUbufHead: nat
    // the connection; the ping payload or close reason is in pingPayloadBuf
    var ctl: Ctl
    const pingPayloadBuf: array<byte>
    var statePreClose: Closing.PreClose
    // configuration
    const rxBufferSize: nat        // of the protocol; 0 selects the context's service buffer size
    const ptServBufSize: nat
    const validateUtf8: bool
    // the callbacks made and control frames written, in order
    var trace: seq<Event>

    function BufSize(): nat { if rxBufferSize != 0 then rxBufferSize else ptServBufSize }

    function Config(): Cfg { Cfg(BufSize(), validateUtf8) }

    ghost function View(): Ws
      reads this, rxUbuf, pingPayloadBuf
      requires rxUbufHead <= rxUbuf.Length
    {
      Ws(Rx(parse, head, text, masking, packetLength, rxUbuf[..rxUbufHead]), ctl.(pingBuf := pingPayloadBuf[..]))
    }

    ghost function LinkView(): Closing.Link
      reads this, rxUbuf, pingPayloadBuf
      requires rxUbufHead <= rxUbuf.Length
    {
      Closing.Link(View(), statePreClose)
    }

    ghost predicate Sound()
      reads this, rxUbuf, pingPayloadBuf
    {
      && rxUbuf != pingPayloadBuf
      && rxUbuf.Length == BufSize() > 0
      && rxUbufHead <= rxUbuf.Length
      && |masking.key| == 4 && (parse.Key? ==> 1 <= parse.n <= 4)
      && pingPayloadBuf.Length == PING_BUF
      && ctl.pingLen <= PING_BUF && ctl.closeLen <= PING_BUF
    }

    /** The rx buffer has room for another payload byte. */
    ghost predicate Valid()
      reads this, rxUbuf, pingPayloadBuf
    {
      Sound() && rxUbufHead < rxUbuf.Length
    }

    /** A connection that lws_client_interpret_server_handshake has just established. */
    constructor (rxBufferSize: nat, ptServBufSize: nat, validateUtf8: bool)
      requires 0 < ptServBufSize
      ensures Valid() && Delivery.Fresh(View()) && Closing.Valid(LinkView())
      ensures Config() == Cfg(if rxBufferSize != 0 then rxBufferSize else ptServBufSize, validateUtf8)
      ensures trace == []
      ensures fresh(rxUbuf) && fresh(pingPayloadBuf)
    {
      parse := New;
      head := Head(0, false, false, false, false);
      text := Text(false, false, 0);
      masking := Masking(false, [0, 0, 0, 0], 0, false);
      packetLength := 0;
      ctl := Ctl(Established, false, 0, [], 0, false, 0, false);
      statePreClose := Closing.Http;
      trace := [];
      this.rxBufferSize, this.ptServBufSize, this.validateUtf8 := rxBufferSize, ptServBufSize, validateUtf8;
      rxUbuf := new byte[if rxBufferSize != 0 then rxBufferSize else ptServBufSize](_ => 0);
      rxUbufHead := 0;
      pingPayloadBuf := new byte[PING_BUF](_ => 0);
    }

    /** LWS_RXPS_NEW: what the opcode changes. */
    method TakeOpcode(op: nat) returns (ok: bool)
      modifies this`head, this`text
      ensures ok == (KnownOpcode(op) && (op == CONTINUATION ==> old(head).continuationPossible))
      ensures head == RefusedHead(old(head), op, ok, None)
      ensures ok ==> text == OpcodeText(validateUtf8, old(text), op)
      ensures !ok ==> text == old(text).(defeat := false)
    {
      text := text.(defeat := false);
      head := head.(opcode := op);
      if op == TEXT {
        head := head.(continuationPossible := true);
        text := text.(check := validateUtf8, state := 0);
      } else if op == BINARY {
        text := text.(check := false);
        head := head.(continuationPossible := true);
      } else if op == CONTINUATION {
        if !head.continuationPossible {
          return false;
        }
      } else if op == CLOSE {
        text := text.(check := false, state := 0);
      } else if 3 <= op <= 7 || 0xb <= op {
        return false;
      } else {
        text := text.(defeat := true);
      }
      return true;
    }

    /** LWS_RXPS_NEW. */
    method RxNew(c: byte) returns (ret: int)
      requires Sound()
      modifies this`head, this`text, this`parse
      ensures var (next, ok) := OnNew(validateUtf8, old(View().rx), c);
        View().rx == next && ret == (if ok then 0 else -1)
      ensures ret == 0 ==> parse.HdrLen?
    {
      var ok := TakeOpcode(c % 16);
      if !ok || c / 16 % 8 != 0 {
        return -1;
      }
      head := head.(final := c >= 128);
      if head.owedAFin && (head.opcode == TEXT || head.opcode == BINARY) {
        return -1;
      }
      if head.opcode < 8 && head.final {
        head := head.(continuationPossible := false, owedAFin := false);
      }
      if head.opcode >= 8 && !head.final {
        return -1;
      }
      if !head.final {
        head := head.(owedAFin := true);
      }
      if head.opcode == TEXT || head.opcode == BINARY {
        head := head.(frameIsBinary := head.opcode == BINARY);
      }
      parse := HdrLen;
      return 0;
    }

    /** lws_write of a CLOSE frame with the first `n` bytes of `buf`, which it masks there. */
    method WriteCloseFrame(buf: array<byte>, n: nat, socket: Sent, key: Key)
      requires n <= buf.Length
      modifies this`ctl, this`trace, buf
      ensures ctl == if MayWrite(old(ctl).conn, true) then Sending(old(ctl), socket) else old(ctl)
      ensures var sent := MayWrite(old(ctl).conn, true) && !socket.Denied?;
        && trace == old(trace) + (if sent then [WriteClose(old(buf[..n]))] else [])
        && buf[..] == if sent then MaskFront(old(buf[..]), n, key) else old(buf[..])
    {
      if !ctl.conn.Established? && !(ctl.conn.ReturnedCloseAlready? || ctl.conn.AwaitingCloseAck?) {
        return;
      }
      if socket.Denied? {
        return;
      }
      trace := trace + [WriteClose(buf[..n])];
      MaskPayload(buf, n, key);
      match socket
      case All =>
      case Partial(unsent) => ctl := ctl.(truncLen := unsent);
      case Error => ctl := ctl.(unusable := true);
      case Denied =>
    }

    /** Replaces a close code that must not be sent. */
    method ReplaceCode()
      requires Sound()
      modifies rxUbuf
      ensures Sound() && rxUbuf[..rxUbufHead] == CloseReply(old(rxUbuf[..rxUbufHead]))
    {
      if rxUbufHead >= 2 {
        var code := rxUbuf[0] as int * 256 + rxUbuf[1];
        if code < 1000 || code == 1004 || code == 1005 || code == 1006 || code == 1012 || code == 1013 ||
           code == 1014 || code == 1015 || (code >= 1016 && code < 3000) {
          rxUbuf[0] := 1002 / 256;
          rxUbuf[1] := 1002 % 256;
        }
      }
    }

    /** Corrects the close code, reports the CLOSE and answers it. */
    method Answer(env: Env)
      requires Sound()
      modifies this`ctl, this`trace, rxUbuf
      ensures Sound()
      ensures var reply := CloseReply(old(rxUbuf[..rxUbufHead]));
        var (next, events) := AnswerClose(old(ctl), reply, env);
        && ctl == next && trace == old(trace) + events
        && rxUbuf[..rxUbufHead] == if Answered(old(ctl), env) then Mask(reply, env.key) else reply
    {
      hide CloseReply;
      ReplaceCode();
      ghost var reply := rxUbuf[..rxUbufHead];
      trace := trace + [PeerClose(rxUbuf[..rxUbufHead])];
      if env.cb != 0 {
        return;
      }
      if ctl.truncLen > 0 {
        ctl := ctl.(unusable := true);
      } else {
        assert rxUbuf[..][..rxUbufHead] == reply;
        WriteCloseFrame(rxUbuf, rxUbufHead, env.socket, env.key);
        assert rxUbuf[..rxUbufHead] == rxUbuf[..][..rxUbufHead];
      }
      ctl := ctl.(conn := ReturnedCloseAlready);
      assert old(trace) + [PeerClose(reply)] + [WriteClose(reply)]
          == old(trace) + [PeerClose(reply), WriteClose(reply)];
    }

    /** The CLOSE branch of spill; it always ends the connection. */
    method OnClose(env: Env) returns (ret: int)
      requires Sound()
      modifies this`text, this`ctl, this`trace, rxUbuf
      ensures Sound()
      ensures var o := SpillClose(Config(), old(View()), env);
        View() == o.ws && trace == old(trace) + o.events && ret == o.ret
      ensures ret != 0
    {
      hide CloseReply;
      if validateUtf8 && rxUbufHead > 2 {
        assert rxUbuf[2..rxUbufHead] == rxUbuf[..rxUbufHead][2..];
        var bad, state := Utf8.CheckUtf8(text.state, rxUbuf[2..rxUbufHead]);
        if bad == 1 {
          return -1;
        }
        text := text.(state := state);
      }
      if ctl.conn.AwaitingCloseAck? {
        return -1;
      }
      Answer(env);
      return -1;
    }

    /** The PING branch of spill. */
    method OnPing()
      requires Sound()
      modifies this`ctl, this`trace, this`rxUbufHead, pingPayloadBuf
      ensures Sound() && rxUbufHead == 0
      ensures var o := SpillPing(old(View()));
        View() == o.ws && trace == old(trace) + o.events
    {
      trace := trace + [ReceivePing(rxUbuf[..rxUbufHead])];
      if ctl.closeLen > 0 || ctl.pingPending || rxUbufHead > PING_BUF {
        rxUbufHead := 0;
        return;
      }
      CopyInto(pingPayloadBuf, 0, rxUbuf[..rxUbufHead]);
      assert pingPayloadBuf[..] == rxUbuf[..rxUbufHead] + old(pingPayloadBuf[rxUbufHead..]);
      ctl := ctl.(pingLen := rxUbufHead, pingPending := true);
      trace := trace + [WantWritable];
      rxUbufHead := 0;
    }

    /** The incremental UTF-8 check of what is in the rx buffer. */
    method CheckText() returns (ok: bool)
      requires Sound()
      modifies this`text
      ensures ok == CheckChunk(old(View().rx)).Some?
      ensures ok ==> text == old(text).(state := CheckChunk(old(View().rx)).value)
      ensures !ok ==> text.(state := 0) == old(text).(state := 0)
      ensures !ok ==> text.state == Utf8.Scan(old(text).state, rxUbuf[..rxUbufHead]).GetOr(old(text).state)
    {
      if !text.check || text.defeat {
        return true;
      }
      var bad, state := Utf8.CheckUtf8(text.state, rxUbuf[..rxUbufHead]);
      if bad == 1 {
        return false;
      }
      text := text.(state := state);
      return !(packetLength == 0 && head.final && state != 0);
    }

    /** The part of spill that checks UTF-8 and passes the payload up. */
    method PassUp(pong: bool, env: Env) returns (ret: int)
      requires Sound()
      modifies this`text, this`trace, this`rxUbufHead
      ensures Sound()
      ensures var was := old(View().rx);
        var e := if pong then ReceivePong(was.ubuf)
                 else Receive(was.ubuf, was.head.frameIsBinary, FinalFragment(was));
        var o := SpillUp(old(View()), e, env);
        View() == o.ws && trace == old(trace) + o.events && ret == o.ret
      ensures ret == 0 ==> rxUbufHead == 0
    {
      hide CheckChunk, Utf8.Scan;
      var ok := CheckText();
      if !ok {
        return -1;
      }
      if !ctl.conn.ReturnedCloseAlready? && !ctl.conn.AwaitingCloseAck? {
        if pong {
          trace := trace + [ReceivePong(rxUbuf[..rxUbufHead])];
        } else {
          trace := trace + [Receive(rxUbuf[..rxUbufHead], head.frameIsBinary, head.final && packetLength == 0)];
        }
        if env.cb != 0 {
          return 1;
        }
      }
      rxUbufHead := 0;
      return 0;
    }

    /** spill: a whole frame is in, or the rx buffer is full. */
    method DoSpill(env: Env) returns (ret: int)
      requires Sound()
      modifies this`text, this`ctl, this`trace, this`rxUbufHead, rxUbuf, pingPayloadBuf
      ensures Sound()
      ensures var o := Spill(Config(), old(View()), env);
        View() == o.ws && trace == old(trace) + o.events && ret == o.ret
      ensures ret == 0 ==> rxUbufHead == 0
    {
      if head.opcode == CLOSE {
        ret := OnClose(env);
      } else if head.opcode == PING {
        OnPing();
        ret := 0;
      } else if head.opcode == PONG {
        ctl := ctl.(awaitingPong := false);
        ret := PassUp(true, env);
      } else if head.opcode <= BINARY {
        ret := PassUp(false, env);
      } else {
        rxUbufHead := 0;
        ret := 0;
      }
    }

    /** The length, or the mask, is complete and no mask follows. */
    method BeginPayload(env: Env) returns (ret: int)
      requires Sound()
      modifies this`parse, this`head, this`text, this`masking, this`packetLength, this`rxUbufHead,
               this`ctl, this`trace, rxUbuf, pingPayloadBuf
      ensures Sound()
      ensures var o := StartPayload(Config(), old(View()), old(View().rx), env);
        View() == o.ws && trace == old(trace) + o.events && ret == o.ret
      ensures ret == 0 && old(Valid()) ==> Valid()
    {
      if packetLength > 0 {
        parse := Payload;
        ret := 0;
      } else {
        parse := New;
        ret := DoSpill(env);
      }
    }

    method EndLength(env: Env) returns (ret: int)
      requires Sound()
      modifies this`parse, this`head, this`text, this`masking, this`packetLength, this`rxUbufHead,
               this`ctl, this`trace, rxUbuf, pingPayloadBuf
      ensures Sound()
      ensures var o := LengthDone(Config(), old(View()), old(View().rx), env);
        View() == o.ws && trace == old(trace) + o.events && ret == o.ret
      ensures ret == 0 && old(Valid()) ==> Valid()
    {
      if masking.on {
        parse := Key(1);
        ret := 0;
      } else {
        ret := BeginPayload(env);
      }
    }

    /** LWS_RXPS_04_FRAME_HDR_LEN. */
    method RxHdrLen(c: byte, env: Env) returns (ret: int)
      requires Sound()
      modifies this`parse, this`head, this`text, this`masking, this`packetLength, this`rxUbufHead,
               this`ctl, this`trace, rxUbuf, pingPayloadBuf
      ensures Sound()
      ensures var o := OnHdrLen(Config(), old(View()), c, env);
        View() == o.ws && trace == old(trace) + o.events && ret == o.ret
      ensures ret == 0 && old(Valid()) ==> Valid()
    {
      masking := masking.(on := c >= 128);
      if c % 128 == 126 || c % 128 == 127 {
        if head.opcode / 8 % 2 == 1 {
          return -1;
        }
        parse := if c % 128 == 126 then Len16Hi else Len64(8);
        return 0;
      }
      packetLength := c;
      ret := EndLength(env);
    }

    /** LWS_RXPS_07_COLLECT_FRAME_KEY_1 to 4. */
    method RxKey(c: byte, env: Env) returns (ret: int)
      requires Sound() && parse.Key?
      modifies this`parse, this`head, this`text, this`masking, this`packetLength, this`rxUbufHead,
               this`ctl, this`trace, rxUbuf, pingPayloadBuf
      ensures Sound()
      ensures var o := OnKey(Config(), old(View()), c, env);
        View() == o.ws && trace == old(trace) + o.events && ret == o.ret
      ensures ret == 0 && old(Valid()) ==> Valid()
    {
      hide Spill;
      masking := masking.(key := masking.key[parse.n - 1 := c]);
      if c != 0 {
        masking := masking.(allZero := false);
      }
      if parse.n < 4 {
        parse := Key(parse.n + 1);
        ret := 0;
      } else {
        ret := BeginPayload(env);
      }
    }

    /** LWS_RXPS_PAYLOAD_UNTIL_LENGTH_EXHAUSTED. */
    method RxPayload(c: byte, env: Env) returns (ret: int)
      requires Valid()
      modifies this`parse, this`head, this`text, this`masking, this`packetLength, this`rxUbufHead,
               this`ctl, this`trace, rxUbuf, pingPayloadBuf
      ensures Sound()
      ensures var o := OnPayload(Config(), old(View()), c, env);
        View() == o.ws && trace == old(trace) + o.events && ret == o.ret
      ensures ret == 0 && old(parse).Payload? ==> Valid()
    {
      hide Spill;
      ghost var before := rxUbuf[..rxUbufHead];
      var b := c;
      if masking.on && !masking.allZero {
        b := Xor(c, masking.key[masking.idx % 4]);
        masking := masking.(idx := (masking.idx as int + 1) % 256);
      }
      rxUbuf[rxUbufHead] := b;
      rxUbufHead := rxUbufHead + 1;
      assert rxUbuf[..rxUbufHead] == before + [b];
      packetLength := Decrement(packetLength);
      if packetLength == 0 {
        parse := New;
        ret := DoSpill(env);
      } else if rxUbufHead != BufSize() {
        ret := 0;
      } else {
        ret := DoSpill(env);
      }
    }

    /** lws_client_rx_sm. */
    method ClientRxSm(c: byte, env: Env) returns (ret: int)
      requires Sound() && (RxRoom.Stores(View()) ==> rxUbufHead < rxUbuf.Length)
      modifies this`parse, this`head, this`text, this`masking, this`packetLength, this`rxUbufHead,
               this`ctl, this`trace, rxUbuf, pingPayloadBuf
      ensures Sound()
      ensures var o := Step(Config(), old(View()), c, env);
        View() == o.ws && trace == old(trace) + o.events && ret == o.ret
      ensures ret == 0 && old(Valid()) ==> Valid()
    {
      if ctl.unusable {
        return -1;
      }
      match parse
      case New => ret := RxNew(c);
      case HdrLen => ret := RxHdrLen(c, env);
      case Len16Hi =>
        packetLength := c as int * 256;
        parse := Len16Lo;
        ret := 0;
      case Len16Lo =>
        packetLength := packetLength + c;
        ret := EndLength(env);
      case Len64(n) => ret := RxLen64(c, n, env);
      case Key(_) => ret := RxKey(c, env);
      case Payload => ret := RxPayload(c, env);
    }

    /** LWS_RXPS_04_FRAME_HDR_LEN64_8 to 1. */
    method RxLen64(c: byte, n: nat, env: Env) returns (ret: int)
      requires Sound() && !ctl.unusable && parse == Len64(n)
      modifies this`parse, this`head, this`text, this`masking, this`packetLength, this`rxUbufHead,
               this`ctl, this`trace, rxUbuf, pingPayloadBuf
      ensures Sound()
      ensures var o := Step(Config(), old(View()), c, env);
        View() == o.ws && trace == old(trace) + o.events && ret == o.ret
      ensures ret == 0 && old(Valid()) ==> Valid()
    {
      if n >= 8 {
        if c >= 128 {
          return -1;
        }
        packetLength := c * Pow256(7);
        parse := Len64(7);
        ret := 0;
      } else if n > 1 {
        packetLength := packetLength + c * Pow256(n - 1);
        parse := Len64(n - 1);
        ret := 0;
      } else {
        packetLength := packetLength + c;
        ret := EndLength(env);
      }
    }

    /** lws_handshake_client in mode LWSCM_WS_CLIENT, while rx flow is allowed. */
    method HandshakeClient(buf: seq<byte>, env: Env) returns (ret: int)
      requires Sound() && RxRoom.Within(Config(), View(), buf, env)
      modifies this`parse, this`head, this`text, this`masking, this`packetLength, this`rxUbufHead,
               this`ctl, this`trace, rxUbuf, pingPayloadBuf
      ensures Sound()
      ensures var o := Run(Config(), old(View()), buf, env);
        View() == o.ws && trace == old(trace) + o.events && ret == (if o.ret != 0 then -1 else 0)
      ensures ret == 0 && old(Valid()) ==> Valid()
    {
      ghost var w, t := View(), trace;
      ReadingStarts(buf, env);
      hide Run, Reading, RxRoom.Within;
      var i := 0;
      while i < |buf|
        invariant 0 <= i <= |buf| && Reading(w, t, buf, i, env)
      {
        var m := OneByte(buf, i, env, w, t);
        if m != 0 {
          return -1;
        }
        i := i + 1;
      }
      ReadingEnds(w, t, buf, env);
      return 0;
    }

    lemma ReadingStarts(buf: seq<byte>, env: Env)
      requires Sound() && RxRoom.Within(Config(), View(), buf, env)
      ensures Reading(View(), trace, buf, 0, env)
      ensures var o := Run(Config(), View(), buf, env);
        Valid() && o.ret == 0 ==> RxRoom.HasRoom(Config(), o.ws)
    {
      hide Run, RxRoom.Within;
      assert buf[0..] == buf;
      if Valid() {
        RxRoom.RunRoom(Config(), View(), buf, env);
      }
    }

    lemma ReadingEnds(w: Ws, t: seq<Event>, buf: seq<byte>, env: Env)
      requires ValidCtl(w.ctl) && Reading(w, t, buf, |buf|, env)
      ensures Sound()
      ensures var o := Run(Config(), w, buf, env); View() == o.ws && trace == t + o.events && o.ret == 0
    {
      hide RxRoom.Within;
      assert buf[|buf|..] == [];
    }

    /** The first `i` bytes of `buf` have been taken, from the state `w` with the events `t` on. */
    ghost predicate Reading(w: Ws, t: seq<Event>, buf: seq<byte>, i: nat, env: Env)
      reads this, rxUbuf, pingPayloadBuf
      requires i <= |buf| && ValidCtl(w.ctl)
    {
      && Sound() && RxRoom.Within(Config(), View(), buf[i..], env)
      && var o := Run(Config(), w, buf, env);
        var r := Run(Config(), View(), buf[i..], env);
        o.ws == r.ws && t + o.events == trace + r.events && o.ret == r.ret
    }

    /** The body of the loop. */
    method OneByte(buf: seq<byte>, i: nat, env: Env, ghost w: Ws, ghost t: seq<Event>) returns (m: int)
      requires ValidCtl(w.ctl) && i < |buf| && Reading(w, t, buf, i, env)
      modifies this`parse, this`head, this`text, this`masking, this`packetLength, this`rxUbufHead,
               this`ctl, this`trace, rxUbuf, pingPayloadBuf
      ensures m == 0 ==> Reading(w, t, buf, i + 1, env)
      ensures m != 0 ==>
        && Sound()
        && var o := Run(Config(), w, buf, env); View() == o.ws && trace == t + o.events && o.ret == m
    {
      hide Run, Step, RxRoom.Within;
      assert buf[i..][0] == buf[i] && buf[i..][1..] == buf[i + 1..];
      RxRoom.ReadStep(Config(), View(), buf[i..], env);
      ghost var before, traced := View(), trace;
      m := ClientRxSm(buf[i], env);
      if m == 0 {
        ghost var o := Step(Config(), before, buf[i], env);
        ghost var r := Run(Config(), View(), buf[i + 1..], env);
        assert traced + (o.events + r.events) == traced + o.events + r.events;
      }
    }

    // ----- closing -----

    /** lws_close_reason: the status and what fits of the data go over any pending PING payload. */
    method CloseReason(status: nat, data: seq<byte>)
      requires Sound()
      modifies this`ctl, pingPayloadBuf
      ensures Sound()
      ensures View() == old(View()).(ctl := Closing.SetReason(old(View().ctl), Closing.ReasonBytes(status, data)))
    {
      pingPayloadBuf[0] := status / 256 % 256;
      pingPayloadBuf[1] := status % 256;
      var n := if |data| <= PING_BUF - 2 then |data| else PING_BUF - 2;
      CopyInto(pingPayloadBuf, 2, data[..n]);
      assert pingPayloadBuf[..] == [status / 256 % 256, status % 256] + data[..n] + old(pingPayloadBuf[n + 2..]);
      ctl := ctl.(closeLen := n + 2);
    }

    /** just_kill_connection. */
    method JustKill(reason: nat)
      requires Sound()
      modifies this`ctl, this`trace
      ensures Sound()
      ensures var (l, events) := Closing.Kill(old(LinkView()), reason);
        LinkView() == l && trace == old(trace) + events
    {
      if !ctl.conn.ShutDown? && reason != Closing.CONTEXT_DESTROY && !ctl.unusable {
        ctl := ctl.(conn := ShutDown);
        return;
      }
      ctl := ctl.(conn := DeadSocket, pingLen := 0, pingPending := false);
      if Closing.TellsClosed(statePreClose) {
        trace := trace + [Closed];
      }
      ctl := ctl.(unusable := true);
    }

    /** Without a stored reason, the one given goes into the shared buffer. */
    method ChooseReason(reason: nat)
      requires Sound()
      modifies this`ctl, pingPayloadBuf
      ensures Sound() && View() == old(View()).(ctl := Closing.Goodbye(old(View().ctl), reason))
    {
      if ctl.closeLen == 0 {
        ctl := ctl.(closeLen := 2);
        pingPayloadBuf[0] := reason / 256 % 256;
        pingPayloadBuf[1] := reason % 256;
        assert pingPayloadBuf[..] == [reason / 256 % 256, reason % 256] + old(pingPayloadBuf[2..]);
      }
    }

    /** The close frame that says goodbye; false if the socket failed. */
    method SendGoodbye(reason: nat, socket: Sent, key: Key) returns (ok: bool)
      requires Sound() && ctl.conn.Established?
      modifies this`ctl, this`trace, pingPayloadBuf
      ensures Sound()
      ensures ok == !Fails(socket)
      ensures var said := Closing.Goodbye(old(View().ctl), reason);
        var next := if socket.Denied? then said else Closing.MaskPing(said, said.closeLen, key);
        && View() == old(View()).(ctl := Sending(next, socket).(conn := if ok then AwaitingCloseAck else Established))
        && trace == old(trace) + if socket.Denied? then [] else [WriteClose(said.pingBuf[..said.closeLen])]
    {
      ChooseReason(reason);
      assert pingPayloadBuf[..ctl.closeLen] == pingPayloadBuf[..][..ctl.closeLen];
      WriteCloseFrame(pingPayloadBuf, ctl.closeLen, socket, key);
      ok := !Fails(socket);
      if ok {
        ctl := ctl.(conn := AwaitingCloseAck);
      }
    }

    /** The goodbye of a close call; the connection goes down at once if it fails. */
    method SayGoodbye(reason: nat, socket: Sent, key: Key)
      requires Sound() && Closing.Valid(LinkView()) && ctl.conn.Established?
      modifies this`ctl, this`trace, pingPayloadBuf
      ensures Sound()
      ensures var (l, events) := Closing.SayGoodbye(old(LinkView()), reason, socket, key);
        LinkView() == l && trace == old(trace) + events
    {
      hide Closing.Kill;
      var sent := SendGoodbye(reason, socket, key);
      if !sent {
        ghost var said, mid := trace, LinkView();
        JustKill(reason);
        ghost var killed := Closing.Kill(mid, reason).1;
        assert old(trace) + (said[|old(trace)|..] + killed) == old(trace) + said[|old(trace)|..] + killed;
      }
    }

    /** lws_close_free_wsi on a websocket client without children. */
    method CloseFreeWsi(reason: nat, env: Closing.CloseEnv)
      requires Sound() && Closing.Valid(LinkView())
      modifies this`ctl, this`trace, this`statePreClose, pingPayloadBuf
      ensures Sound()
      ensures var (l, events) := Closing.CloseFree(old(LinkView()), reason, env);
        LinkView() == l && trace == old(trace) + events
    {
      hide Closing.Kill, Closing.SayGoodbye;
      if ctl.conn.DeadSocket? {
        return;
      }
      if ctl.unusable || reason == Closing.CONTEXT_DESTROY || ctl.conn.ShutDown? {
        JustKill(reason);
        return;
      }
      statePreClose := Closing.Was(ctl.conn);
      if ctl.conn.FlushingStoredSend? && ctl.truncLen > 0 {
        trace := trace + [WantWritable];
        return;
      }
      if !ctl.conn.AwaitingCloseAck? && !ctl.conn.FlushingStoredSend? {
        if ctl.truncLen > 0 {
          ctl := ctl.(conn := FlushingStoredSend);
          return;
        }
        if env.veto {
          return;
        }
        if !env.extFails && ctl.conn.Established? &&
           (ctl.closeLen > 0 || (reason != Closing.NOSTATUS && reason != Closing.CONTEXT_DESTROY)) {
          SayGoodbye(reason, env.socket, env.key);
          return;
        }
      }
      JustKill(reason);
    }

    /** lws_read: bytes reach the receive machine in three states, and a refusal closes the connection. */
    method Read(buf: seq<byte>, env: Env, close: Closing.CloseEnv)
      requires Sound() && Closing.Valid(LinkView())
      requires Closing.Listens(ctl.conn) ==> RxRoom.Within(Config(), View(), buf, env)
      modifies this, rxUbuf, pingPayloadBuf
      ensures Sound()
      ensures old(Valid()) && !RxRoom.Refused(Config(), old(LinkView()), Closing.Read(buf, env, close)) ==> Valid()
      ensures var (l, events) := Closing.ReadLink(Config(), old(LinkView()), buf, env, close);
        LinkView() == l && trace == old(trace) + events
    {
      hide Run, Closing.CloseFree;
      if ctl.conn.Established? || ctl.conn.AwaitingCloseAck? || ctl.conn.ShutDown? {
        var bad := HandshakeClient(buf, env);
        ghost var heard, mid := Run(Config(), old(View()), buf, env).events, LinkView();
        if bad != 0 {
          CloseFreeWsi(Closing.NOSTATUS, close);
          ghost var more := Closing.CloseFree(mid, Closing.NOSTATUS, close).1;
          assert old(trace) + heard + more == old(trace) + (heard + more);
        }
      }
    }

    /** The unsent bytes of an earlier write come first; true asks for a close. */
    method FlushUnsent(socket: Sent) returns (closes: bool)
      requires Sound() && ctl.truncLen > 0
      modifies this`ctl
      ensures Sound()
      ensures forall env: Env | env.socket == socket ::
        Closing.PollOut(old(View().ctl), env) == (View().ctl, [], closes)
      ensures View() == old(View()).(ctl := View().ctl)
    {
      match socket {
        case Error =>
          ctl := ctl.(unusable := true);
          return true;
        case Denied => return true;
        case All => ctl := ctl.(truncLen := 0);
        case Partial(n) => ctl := ctl.(truncLen := if n <= ctl.truncLen then n else ctl.truncLen);
      }
      return ctl.truncLen == 0 && ctl.conn.FlushingStoredSend?;
    }

    /** The PONG that is pending, masked where its payload lies; true asks for a close. */
    method SendPong(socket: Sent, key: Key) returns (closes: bool)
      requires Sound()
      modifies this`ctl, this`trace, pingPayloadBuf
      ensures Sound() && closes == Fails(socket)
      ensures View().rx == old(View()).rx
      ensures var was := old(View()).ctl;
        var after := if socket.Denied? then was else Closing.MaskPing(was, was.pingLen, key);
        && View().ctl == Sending(after, socket).(pingPending := closes && was.pingPending)
        && trace == old(trace) + if socket.Denied? then [] else [WritePong(was.pingBuf[..was.pingLen])]
    {
      if socket.Denied? {
        return true;
      }
      assert pingPayloadBuf[..ctl.pingLen] == pingPayloadBuf[..][..ctl.pingLen];
      trace := trace + [WritePong(pingPayloadBuf[..ctl.pingLen])];
      MaskPayload(pingPayloadBuf, ctl.pingLen, key);
      if socket.Error? {
        ctl := ctl.(unusable := true);
        return true;
      }
      if socket.Partial? {
        ctl := ctl.(truncLen := socket.unsent);
      }
      ctl := ctl.(pingPending := false);
      return false;
    }

    /** lws_handle_POLLOUT_event; true asks for a close. */
    method HandlePollOut(env: Env) returns (closes: bool)
      requires Sound()
      modifies this`ctl, this`trace, pingPayloadBuf
      ensures Sound()
      ensures var (next, events, c) := Closing.PollOut(old(View().ctl), env);
        View() == old(View()).(ctl := next) && trace == old(trace) + events && closes == c
    {
      if ctl.truncLen > 0 {
        hide Closing.PollOut;
        closes := FlushUnsent(env.socket);
      } else if ctl.conn.FlushingStoredSend? {
        closes := true;
      } else if ctl.conn.Established? && ctl.pingPending {
        closes := SendPong(env.socket, env.key);
      } else {
        closes := env.cb != 0;
      }
    }

    /** lws_service_fd for a writable socket. */
    method ServiceWritable(env: Env, close: Closing.CloseEnv)
      requires Sound() && Closing.Valid(LinkView())
      modifies this`ctl, this`trace, this`statePreClose, pingPayloadBuf
      ensures Sound()
      ensures var (l, events) := Closing.Service(old(LinkView()), env, close);
        LinkView() == l && trace == old(trace) + events
    {
      hide Closing.CloseFree, Closing.PollOut;
      if !ctl.conn.Established? && !ctl.conn.ReturnedCloseAlready? && !ctl.conn.FlushingStoredSend? {
        return;
      }
      var returned := ctl.conn.ReturnedCloseAlready?;
      var closes := HandlePollOut(env);
      if closes {
        if returned {
          ctl := ctl.(conn := FlushingStoredSend);
        }
        ghost var sent, mid := Closing.PollOut(old(View().ctl), env).1, LinkView();
        CloseFreeWsi(Closing.NOSTATUS, close);
        ghost var more := Closing.CloseFree(mid, Closing.NOSTATUS, close).1;
        assert old(trace) + sent + more == old(trace) + (sent + more);
      }
    }

    /** lws_write of user data. */
    method WriteData(socket: Sent)
      requires Sound() && Closing.Valid(LinkView())
      modifies this`ctl
      ensures Sound() && LinkView() == Closing.WriteData(old(LinkView()), socket)
    {
      if !ctl.conn.Established? || ctl.truncLen > 0 {
        return;
      }
      match socket
      case All =>
      case Partial(unsent) => ctl := ctl.(truncLen := unsent);
      case Error => ctl := ctl.(unusable := true);
      case Denied =>
    }

    /** Whatever happens to the connection, in place; a dead one is freed and nothing more happens to it. */
    method Happen(op: Closing.Op)
      requires Sound() && Closing.Valid(LinkView())
      requires RxRoom.Heard(LinkView(), op) ==> RxRoom.Within(Config(), View(), op.bytes, op.env)
      modifies this, rxUbuf, pingPayloadBuf
      ensures Sound() && Closing.Valid(LinkView())
      ensures var (l, events) := Closing.Next(Config(), old(LinkView()), op);
        LinkView() == l && trace == old(trace) + events
    {
      hide Closing.CloseFree, Closing.ReadLink, Closing.Service;
      Closing.NextFollows(Config(), LinkView(), op);
      if ctl.conn.DeadSocket? {
        return;
      }
      match op
      case Read(bytes, env, close) => Read(bytes, env, close);
      case Writable(env, close) => ServiceWritable(env, close);
      case Fail(close) =>
        ctl := ctl.(unusable := true);
        CloseFreeWsi(Closing.NOSTATUS, close);
      case Close(reason, close) => CloseFreeWsi(reason, close);
      case Reason(status, data) => CloseReason(status, data);
      case Write(socket) => WriteData(socket);
    }

    /** Whole runs in place: they need nothing but that no payload byte comes after a refusal left the buffer full. */
    method HappenAll(ops: seq<Closing.Op>)
      requires Valid() && Closing.Valid(LinkView()) && !RxRoom.LateByte(Config(), LinkView(), false, ops)
      modifies this, rxUbuf, pingPayloadBuf
      ensures Sound() && Closing.Valid(LinkView())
      ensures var (l, events) := Closing.RunOps(Config(), old(LinkView()), ops);
        LinkView() == l && trace == old(trace) + events
    {
      ghost var l, t := LinkView(), trace;
      RxRoom.RoomTheorem(Config(), l, false, ops);
      assert ops[0..] == ops;
      assert Happening(l, t, ops, 0);
      var i := 0;
      while i < |ops|
        invariant 0 <= i <= |ops| && Happening(l, t, ops, i)
      {
        hide Closing.RunOps, Closing.Valid, Happening;
        OneOp(ops, i, l, t);
        i := i + 1;
      }
      NothingHappens(ops[i..]);
    }

    /** The first `i` of `ops` have happened, from the state `l` with the events `t` on. */
    ghost predicate Happening(l: Closing.Link, t: seq<Event>, ops: seq<Closing.Op>, i: nat)
      reads this, rxUbuf, pingPayloadBuf
      requires i <= |ops| && Closing.Valid(l)
    {
      && Sound() && Closing.Valid(LinkView()) && RxRoom.OpsWithin(Config(), LinkView(), ops[i..])
      && var all := Closing.RunOps(Config(), l, ops);
        var rest := Closing.RunOps(Config(), LinkView(), ops[i..]);
        all.0 == rest.0 && t + all.1 == trace + rest.1
    }

    method OneOp(ops: seq<Closing.Op>, i: nat, ghost l: Closing.Link, ghost t: seq<Event>)
      requires Closing.Valid(l) && i < |ops| && Happening(l, t, ops, i)
      modifies this, rxUbuf, pingPayloadBuf
      ensures Happening(l, t, ops, i + 1)
    {
      hide Closing.Next, Closing.Valid, Closing.RunOps, RxRoom.OpsWithin, RxRoom.Within;
      assert ops[i..][0] == ops[i] && ops[i..][1..] == ops[i + 1..];
      RxRoom.OpsStep(Config(), LinkView(), ops[i..]);
      ghost var traced, events := trace, Closing.Next(Config(), LinkView(), ops[i]).1;
      Happen(ops[i]);
      ghost var rest := Closing.RunOps(Config(), LinkView(), ops[i + 1..]);
      assert traced + (events + rest.1) == traced + events + rest.1;
    }

    lemma NothingHappens(rest: seq<Closing.Op>)
      requires Sound() && Closing.Valid(LinkView()) && rest == []
      ensures Closing.RunOps(Config(), LinkView(), rest).0 == LinkView()
      ensures Closing.RunOps(Config(), LinkView(), rest).1 == []
    {
    }
  }
}
