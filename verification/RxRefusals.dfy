/**
  * Where the receive machine stops: at a callback that refuses, at a header byte or a text it cannot take, and what
  * it still does on a connection that is being closed.
  */
module RxRefusals {
  import opened Bytes
  import opened ClientRx
  import opened Delivery
  import Utf8

  // ----- a callback that refuses -----

  /** The user's callback is called. */
  predicate Told(e: Event) { e.Receive? || e.ReceivePong? || e.PeerClose? }

  predicate NoneTold(events: seq<Event>) { forall e | e in events :: !Told(e) }

  /** The events up to the first call of the user's callback. */
  function UpToTold(events: seq<Event>): seq<Event>
  {
    if events == [] then []
    else if Told(events[0]) then [events[0]]
    else [events[0]] + UpToTold(events[1..])
  }

  lemma {:induction false} UpToConcat(a: seq<Event>, b: seq<Event>)
    ensures UpToTold(a + b) == if NoneTold(a) then a + UpToTold(b) else UpToTold(a)
  {
    if a == [] {
      assert a + b == b && a + UpToTold(b) == UpToTold(b);
    } else {
      assert (a + b)[1..] == a[1..] + b;
      UpToConcat(a[1..], b);
      if !Told(a[0]) {
        assert NoneTold(a) <==> NoneTold(a[1..]) by { assert a == [a[0]] + a[1..]; }
        assert [a[0]] + (a[1..] + UpToTold(b)) == a + UpToTold(b);
      }
    }
  }

  /** With a callback that refuses, against the same with one that does not. */
  predicate Stops(o: Outcome, willing: Outcome)
  {
    if NoneTold(willing.events) then o == willing
    else o.events == UpToTold(willing.events) && o.ret != 0
  }

  lemma ShortRuns(a: Event, b: Event)
    ensures UpToTold([a]) == [a] && UpToTold([a, b]) == if Told(a) then [a] else [a, b]
    ensures NoneTold([a]) <==> !Told(a)
    ensures NoneTold([a, b]) <==> !Told(a) && !Told(b)
  {
    assert [a][1..] == [] && [a, b][1..] == [b] && [b][1..] == [];
    assert UpToTold([b]) == [b];
    assert a in [a] && a in [a, b] && b in [a, b];
  }

  lemma SpillStops(cfg: Cfg, w: Ws, env: Env)
    requires ValidCtl(w.ctl) && env.cb != 0
    ensures Stops(Spill(cfg, w, env), Spill(cfg, w, env.(cb := 0)))
  {
    hide CloseReply, CheckChunk, CloseText, UpToTold, NoneTold, Told;
    assert NoneTold([]) by { NothingTold(); }
    var ubuf, reply := w.rx.ubuf, CloseReply(w.rx.ubuf);
    if w.rx.head.opcode == CLOSE {
      ShortRuns(PeerClose(reply), WriteClose(reply));
      assert Told(PeerClose(reply)) by { TellsUser(reply, false, false); }
    } else {
      ShortRuns(ReceivePing(ubuf), WantWritable);
      ShortRuns(ReceivePong(ubuf), WantWritable);
      ShortRuns(Receive(ubuf, w.rx.head.frameIsBinary, FinalFragment(w.rx)), WantWritable);
      TellsUser(ubuf, w.rx.head.frameIsBinary, FinalFragment(w.rx));
    }
  }

  lemma NothingTold()
    ensures NoneTold([])
  {
  }

  lemma TellsUser(data: seq<byte>, binary: bool, final: bool)
    ensures Told(PeerClose(data)) && Told(ReceivePong(data)) && Told(Receive(data, binary, final))
    ensures !Told(ReceivePing(data)) && !Told(WantWritable)
  {
  }

  lemma StepStops(cfg: Cfg, w: Ws, c: byte, env: Env)
    requires ValidCtl(w.ctl) && env.cb != 0
    ensures Stops(Step(cfg, w, c, env), Step(cfg, w, c, env.(cb := 0)))
  {
    hide Spill, Step;
    var spilled := SpillsAlike(cfg, w, c, env);
    if spilled.Some? {
      SpillStops(cfg, w.(rx := spilled.value), env);
    }
  }

  predicate Alike(cfg: Cfg, w: Ws, env: Env, o: Outcome, willing: Outcome, spilled: Option<Rx>)
    requires ValidCtl(w.ctl)
  {
    match spilled
    case None => o == willing && o.events == []
    case Some(rx) => o == Spill(cfg, w.(rx := rx), env) && willing == Spill(cfg, w.(rx := rx), env.(cb := 0))
  }

  lemma LengthAlike(cfg: Cfg, w: Ws, rx: Rx, env: Env)
    requires ValidCtl(w.ctl)
    ensures Alike(cfg, w, env, LengthDone(cfg, w, rx, env), LengthDone(cfg, w, rx, env.(cb := 0)),
                  if rx.masking.on || rx.packetLength > 0 then None else Some(rx.(parse := New)))
    ensures Alike(cfg, w, env, StartPayload(cfg, w, rx, env), StartPayload(cfg, w, rx, env.(cb := 0)),
                  if rx.packetLength > 0 then None else Some(rx.(parse := New)))
  {
    hide Spill;
  }

  /** Whether a byte spills, and what, does not depend on the callback. */
  lemma SpillsAlike(cfg: Cfg, w: Ws, c: byte, env: Env) returns (spilled: Option<Rx>)
    requires ValidCtl(w.ctl)
    ensures Alike(cfg, w, env, Step(cfg, w, c, env), Step(cfg, w, c, env.(cb := 0)), spilled)
  {
    hide Spill, OnNew, LengthDone, StartPayload, Pow256;
    spilled := None;
    if !w.ctl.unusable {
      var rx0 := w.rx;
      match w.rx.parse
      case New | Len16Hi =>
      case HdrLen =>
        rx0 := w.rx.(masking := w.rx.masking.(on := c >= 128), packetLength := c);
        if c % 128 < 126 {
          spilled := if rx0.masking.on || c > 0 then None else Some(rx0.(parse := New));
          LengthAlike(cfg, w, rx0, env);
        }
      case Len16Lo =>
        rx0 := w.rx.(packetLength := w.rx.packetLength + c);
        spilled := if rx0.masking.on || rx0.packetLength > 0 then None else Some(rx0.(parse := New));
        LengthAlike(cfg, w, rx0, env);
      case Len64(n) =>
        if n <= 1 {
          rx0 := w.rx.(packetLength := w.rx.packetLength + c);
          spilled := if rx0.masking.on || rx0.packetLength > 0 then None else Some(rx0.(parse := New));
          LengthAlike(cfg, w, rx0, env);
        }
      case Key(n) => spilled := KeyAlike(cfg, w, c, env);
      case Payload => spilled := PayloadAlike(cfg, w, c, env);
    }
  }

  lemma KeyAlike(cfg: Cfg, w: Ws, c: byte, env: Env) returns (spilled: Option<Rx>)
    requires ValidCtl(w.ctl) && w.rx.parse.Key?
    ensures Alike(cfg, w, env, OnKey(cfg, w, c, env), OnKey(cfg, w, c, env.(cb := 0)), spilled)
  {
    hide Spill, StartPayload;
    var n, m := w.rx.parse.n, w.rx.masking;
    var rx := w.rx.(masking := m.(key := if 1 <= n <= |m.key| then m.key[n - 1 := c] else m.key,
                                  allZero := m.allZero && c == 0));
    spilled := if n < 4 || rx.packetLength > 0 then None else Some(rx.(parse := New));
    LengthAlike(cfg, w, rx, env);
  }

  lemma PayloadAlike(cfg: Cfg, w: Ws, c: byte, env: Env) returns (spilled: Option<Rx>)
    requires ValidCtl(w.ctl)
    ensures Alike(cfg, w, env, OnPayload(cfg, w, c, env), OnPayload(cfg, w, c, env.(cb := 0)), spilled)
  {
    hide Spill, Unmask;
    var (rx0, b) := Unmask(w.rx, c);
    var rx := rx0.(ubuf := rx0.ubuf + [b], packetLength := Decrement(rx0.packetLength));
    spilled := if rx.packetLength == 0 then Some(rx.(parse := New))
               else if |rx.ubuf| != cfg.bufSize then None else Some(rx);
  }

  /**
    * Whatever is read: a callback that refuses is called as the first one would be, and not again; the read ends there
    * with all that happened before. Where no callback is called, it makes no difference.
    */
  lemma {:induction false} CallbackStops(cfg: Cfg, w: Ws, bytes: seq<byte>, env: Env)
    requires ValidCtl(w.ctl) && env.cb != 0
    ensures Stops(Run(cfg, w, bytes, env), Run(cfg, w, bytes, env.(cb := 0)))
    decreases |bytes|
  {
    hide Step;
    if bytes != [] {
      var o, willing := Step(cfg, w, bytes[0], env), Step(cfg, w, bytes[0], env.(cb := 0));
      StepStops(cfg, w, bytes[0], env);
      if willing.ret == 0 {
        var more := Run(cfg, willing.ws, bytes[1..], env.(cb := 0));
        UpToConcat(willing.events, more.events);
        if NoneTold(willing.events) {
          CallbackStops(cfg, willing.ws, bytes[1..], env);
          assert NoneTold(willing.events + more.events) <==> NoneTold(more.events);
        } else {
          assert !NoneTold(willing.events + more.events) by { ToldStays(willing.events, more.events); }
        }
      }
    }
  }

  lemma ToldStays(a: seq<Event>, b: seq<Event>)
    requires !NoneTold(a)
    ensures !NoneTold(a + b)
  {
    var e :| e in a && Told(e);
    assert e in a + b;
  }

  // ----- a connection that is being closed -----

  predicate Closes(conn: Conn) { conn.AwaitingCloseAck? || conn.ReturnedCloseAlready? }

  /** No data, no PONG; and while an acknowledgement is awaited, no CLOSE either, in or out. */
  predicate Quiet(conn: Conn, events: seq<Event>)
  {
    forall e | e in events ::
      && !e.Receive? && !e.ReceivePong? && !e.WritePong? && !e.Closed?
      && (conn.AwaitingCloseAck? ==> !e.PeerClose? && !e.WriteClose?)
  }

  /** After a CLOSE in either direction, no data is reported any more. */
  lemma {:induction false} RunQuiet(cfg: Cfg, w: Ws, bytes: seq<byte>, env: Env)
    requires ValidCtl(w.ctl) && Closes(w.ctl.conn)
    ensures var o := Run(cfg, w, bytes, env);
      o.ws.ctl.conn == w.ctl.conn && Quiet(w.ctl.conn, o.events)
    decreases |bytes|
  {
    hide Step;
    if bytes != [] {
      var o := Step(cfg, w, bytes[0], env);
      StepQuiet(cfg, w, bytes[0], env);
      if o.ret == 0 {
        RunQuiet(cfg, o.ws, bytes[1..], env);
      }
    }
  }

  lemma StepQuiet(cfg: Cfg, w: Ws, c: byte, env: Env)
    requires ValidCtl(w.ctl) && Closes(w.ctl.conn)
    ensures var o := Step(cfg, w, c, env);
      o.ws.ctl.conn == w.ctl.conn && Quiet(w.ctl.conn, o.events)
  {
    hide Spill;
    var rx, spills := StepSplits(cfg, w, c, env);
    if spills {
      SpillQuiet(cfg, w.(rx := rx), env);
    }
  }

  lemma SpillQuiet(cfg: Cfg, w: Ws, env: Env)
    requires ValidCtl(w.ctl) && Closes(w.ctl.conn)
    ensures var o := Spill(cfg, w, env);
      o.ws.ctl.conn == w.ctl.conn && Quiet(w.ctl.conn, o.events)
  {
    hide CheckChunk, CloseText, CloseReply;
  }

  /** Nothing is read on a connection that is marked unusable. */
  lemma UnusableReads(cfg: Cfg, w: Ws, bytes: seq<byte>, env: Env)
    requires ValidCtl(w.ctl) && w.ctl.unusable && bytes != []
    ensures Run(cfg, w, bytes, env) == Outcome(w, [], -1)
  {
  }

  // ----- a header byte that is refused -----

  /** The opcode is refused before the rest of the byte is looked at. */
  predicate UnknownNow(rx: Rx, c: byte)
  {
    3 <= c % 16 <= 7 || 11 <= c % 16 || (c % 16 == 0 && !rx.head.continuationPossible)
  }

  /**
    * A refused first byte leaves the message under way as it is, but for two things: after TEXT or BINARY a
    * CONTINUATION is taken to be possible, and the check of text is set up as if the byte had been taken.
    */
  lemma RefusedByte(cfg: Cfg, w: Ws, c: byte, env: Env)
    requires ValidCtl(w.ctl) && !w.ctl.unusable && w.rx.parse.New?
    ensures var o := Step(cfg, w, c, env);
      var rx, op := o.ws.rx, c % 16;
      && (o.ret != 0 <==> UnknownNow(w.rx, c) || c / 16 % 8 != 0 || (w.rx.head.owedAFin && (op == 1 || op == 2))
                          || (op >= 8 && c < 128))
      && o.events == [] && o.ws.ctl == w.ctl && rx.ubuf == w.rx.ubuf && rx.masking == w.rx.masking
      && (o.ret != 0 ==>
            && rx.parse.New?
            && rx.head.owedAFin == w.rx.head.owedAFin && rx.head.frameIsBinary == w.rx.head.frameIsBinary
            && rx.head.continuationPossible == (w.rx.head.continuationPossible || op == 1 || op == 2)
            && rx.head.opcode == op
            && rx.head.final == (if UnknownNow(w.rx, c) || c / 16 % 8 != 0 then w.rx.head.final else c >= 128))
      && rx.text.defeat == (op == 9 || op == 10)
      && rx.text.check == (if op == 1 then cfg.validateUtf8 else w.rx.text.check && op != 2 && op != 8)
      && rx.text.state == (if op == 1 || op == 8 then 0 else w.rx.text.state)
  {
    hide OnHdrLen, OnKey, OnPayload, LengthDone;
  }

  /** So a CONTINUATION that no message preceded can be taken after a refusal. */
  lemma ContinuesRefused(cfg: Cfg, w: Ws, env: Env)
    requires Fresh(w)
    ensures var refused := Step(cfg, w, 0xC1, env);
      refused.ret != 0 && Step(cfg, w, 0x80, env).ret != 0 && Step(cfg, refused.ws, 0x80, env).ret == 0
  {
    hide OnHdrLen, OnKey, OnPayload, LengthDone;
    RefusedByte(cfg, w, 0xC1, env);
    RefusedByte(cfg, w, 0x80, env);
    RefusedByte(cfg, Step(cfg, w, 0xC1, env).ws, 0x80, env);
  }

  // ----- a text that is refused -----

  /**
    * A chunk of text that is refused stays in the buffer; the checker keeps its state, unless the fault is only that
    * the message ends inside a character.
    */
  lemma RefusedText(cfg: Cfg, w: Ws, env: Env)
    requires ValidCtl(w.ctl) && w.rx.head.opcode <= 2 && w.rx.text.check && !w.rx.text.defeat
    ensures var o, u := Spill(cfg, w, env), Utf8.Scan(w.rx.text.state, w.rx.ubuf);
      u.None? || (u.value != 0 && w.rx.head.final && w.rx.packetLength == 0) ==>
        && o.ret != 0 && o.events == [] && o.ws.ctl == w.ctl
        && o.ws.rx == w.rx.(text := w.rx.text.(state := if u.None? then w.rx.text.state else u.value))
  {
  }
}
