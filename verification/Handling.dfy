/**
 * The redirector's side of one connection as an object (`TcpRxState` and the regions of
 * `handle_tcp_ack` and `handle_tcp_fin`, src/lib.rs:1454-1580, src/lib.rs:1837-1989,
 * src/lib.rs:2079-2145): it drives the real `Forwarder` and the real `Window`, and every region is
 * proved to be one step of `Connection`. The program counter between regions is the field `phase`.
 */
module Handling {
  import opened Basics
  import opened SequenceNumbers
  import opened WindowSpec
  import opened ReceiveWindow
  import opened Transmit
  import opened Forwarding
  import opened Connection
  import Reassembly
  import SenderSteps
  import SenderRun
  import SenderFacts

  class Endpoint {
    const forwarder: Forwarder
    const cache: Window
    const wscale: nat
    const sackPerm: bool
    var recvNext: u32
    var lastAcknowledgement: u32
    var duplicate: nat
    var lastRetrans: Option<nat>
    var finSequence: Option<u32>
    var phase: Phase
    var out: seq<byte>
    /** What the fields stand for, with the history the properties speak of. */
    ghost var conn: Conn
    ghost var before: seq<Frame>

    ghost function RxView(): Rx
      reads this
    {
      Rx(recvNext, lastAcknowledgement, duplicate, lastRetrans, wscale, sackPerm, finSequence)
    }

    /** The transmit state and the frames of the `Forwarder` are the connection's. */
    ghost predicate Sending()
      reads this, forwarder, forwarder.state, forwarder.state.cache
    {
      && forwarder.Valid()
      && conn.snd.tx == forwarder.state.View()
      && forwarder.sent == before + conn.snd.log
    }

    ghost predicate Receiving()
      reads this, cache
    {
      && cache.Valid()
      && conn.rcv.window == cache.View() && conn.rcv.window.Ok()
      && conn.rx == RxView() && conn.phase == phase && conn.out == out
    }

    ghost predicate Valid()
      reads this, forwarder, forwarder.state, forwarder.state.cache, cache
    {
      Sending() && Receiving()
    }

    constructor (forwarder: Forwarder, cache: Window, start: u32, wscale: nat, sackPerm: bool,
                 ghost snd: SenderSteps.Sender)
      requires forwarder.Valid() && forwarder.state.View() == snd.tx && snd.log == []
      requires cache.Valid() && cache.View() == Reassembly.Fresh(cache.capacity, start).window
      ensures Valid() && this.forwarder == forwarder && this.cache == cache
      ensures
        var rx := Rx(start, 0, 0, None, wscale, sackPerm, None);
        conn == Conn(snd, Reassembly.Fresh(cache.capacity, start), rx, Idle, [], 0)
    {
      this.forwarder, this.cache, this.wscale, this.sackPerm := forwarder, cache, wscale, sackPerm;
      recvNext, lastAcknowledgement, duplicate, lastRetrans, finSequence := start, 0, 0, None, None;
      phase, out := Idle, [];
      ghost var rx := Rx(start, 0, 0, None, wscale, sackPerm, None);
      conn := Conn(snd, Reassembly.Fresh(cache.capacity, start), rx, Idle, [], 0);
      before := forwarder.sent;
    }

    // -- whole runs ------------------------------------------------------------------------------

    /**
     * Any run of the peer, the stream and the worker, on the real ring, range map and transmit
     * state: the stream was given exactly a prefix of what the peer sent; what is acknowledged is
     * what is expected next, and agrees with the window's base; at most one FIN was admitted, after
     * every byte; the blocks kept for sending are the window's first filled ranges; and every data
     * frame sent is a slice of what was forwarded, under its own number.
     */
    method Drive(events: seq<(Event, Env)>, ghost isn: u32, ghost stream: seq<byte>, ghost start: u32)
      requires Valid() && Connection.Inv(isn, stream, start, conn)
      requires Connection.AllowedRun(isn, stream, start, conn, events)
      modifies this, cache, forwarder, forwarder.state, forwarder.state.cache
      ensures Valid() && Connection.Inv(isn, stream, start, conn)
      ensures out <= stream && forwarder.state.acknowledgement == recvNext
      ensures conn.fins <= 1 && (conn.fins == 1 ==> out == stream)
      ensures phase != Gone ==>
                if conn.fins == 0 then cache.sequence == Add(recvNext, |Pending(phase)|)
                else recvNext == Add(cache.sequence, 1)
      ensures sackPerm ==> forwarder.state.sacks == SacksOf(cache.View())
      ensures forwarder.sent == before + conn.snd.log && SenderSteps.AllSlices(isn, conn.snd.stream, conn.snd.log)
    {
      for i := 0 to |events|
        invariant Valid() && Connection.Inv(isn, stream, start, conn)
        invariant Connection.AllowedRun(isn, stream, start, conn, events[i..])
      {
        assert events[i..][0] == events[i] && events[i..][1..] == events[i + 1..];
        Connection.StepKeeps(isn, stream, start, conn, events[i].0, events[i].1);
        Handle(events[i].0, events[i].1);
      }
      Connection.InvMeans(stream, start, conn);
    }

    /** One event; the MTU may have changed since the last. */
    method Handle(e: Event, env: Env)
      requires Valid() && 0 < env.mss
      modifies this, cache, forwarder, forwarder.state, forwarder.state.cache
      ensures Valid() && conn == Connection.Step(old(conn), e, env)
    {
      forwarder.mss, forwarder.localMtu := env.mss, env.localMtu;
      match e {
        case Arrive(seg, ackFlag) => Arrive(seg, ackFlag, env.now);
        case Proceed(choice) => Proceed(choice, env.now);
        case Forward(payload) => Forward(payload, env.now);
        case Tick => Tick(env.now);
        case Close => Close(env.now);
      }
    }

    // -- the stream worker -----------------------------------------------------------------------

    method Forward(payload: seq<byte>, now: nat)
      requires Valid()
      modifies this`conn, forwarder`sent, forwarder.state, forwarder.state.cache
      ensures Valid() && conn == Connection.Step(old(conn), Connection.Forward(payload), old(forwarder.EnvAt(now)))
    {
      ghost var env := forwarder.EnvAt(now);
      var ok := forwarder.Forward(payload, now);
      Joined(before, conn.snd, SenderSteps.Forward(payload), env);
      conn := Connection.Step(conn, Connection.Forward(payload), env);
    }

    method Tick(now: nat)
      requires Valid()
      modifies this`conn, forwarder`sent, forwarder.state, forwarder.state.cache
      ensures Valid() && conn == Connection.Step(old(conn), Connection.Tick, old(forwarder.EnvAt(now)))
    {
      ghost var env := forwarder.EnvAt(now);
      forwarder.Tick(now);
      Joined(before, conn.snd, SenderSteps.Tick, env);
      conn := Connection.Step(conn, Connection.Tick, env);
    }

    method Close(now: nat)
      requires Valid()
      modifies this`conn, forwarder`sent, forwarder.state, forwarder.state.cache
      ensures Valid() && conn == Connection.Step(old(conn), Connection.Close, old(forwarder.EnvAt(now)))
    {
      ghost var env := forwarder.EnvAt(now);
      var ok := forwarder.Close(now);
      Joined(before, conn.snd, SenderSteps.Close, env);
      conn := Connection.Step(conn, Connection.Close, env);
    }

    // -- the regions of the handlers -------------------------------------------------------------

    /** Takes a segment; with an ACK, acknowledges and sets the send window under the mutex. */
    method Arrive(seg: Segment, ackFlag: bool, now: nat)
      requires Valid()
      modifies this, forwarder.state, forwarder.state.cache
      ensures Valid() && conn == Connection.Step(old(conn), Connection.Arrive(seg, ackFlag), old(forwarder.EnvAt(now)))
    {
      ghost var env := forwarder.EnvAt(now);
      if phase == Idle {
        if ackFlag {
          var window := seg.window * SenderFacts.Power2(wscale);
          TakeAcknowledgement(seg.acknowledgement, window, now);
          phase := Acknowledged(seg);
        } else {
          phase := CheckFin(seg);
        }
      }
      conn := Connection.Step(conn, Connection.Arrive(seg, ackFlag), env);
    }

    /** Runs the next region of the segment being handled; `choice` is what the stream says there. */
    method Proceed(choice: bool, now: nat)
      requires Valid()
      modifies this, cache, forwarder`sent, forwarder.state, forwarder.state.cache
      ensures Valid() && conn == Connection.Step(old(conn), Connection.Proceed(choice), old(forwarder.EnvAt(now)))
    {
      match phase {
        case Acknowledged(seg) => HandleAcknowledged(seg, choice, now);
        case Appended(seg, payload) => ReplyAppended(seg, payload, choice, now);
        case Replied(seg) => SendRemaining(seg, now);
        case CheckFin(seg) => HandleTcpFin(seg, choice, now);
        case _ =>
      }
    }

    /** The region after the acknowledgement: with or without payload. */
    method HandleAcknowledged(seg: Segment, writable: bool, now: nat)
      requires Valid() && phase == Acknowledged(seg)
      modifies this, cache, forwarder`sent, forwarder.state`sequence, forwarder.state`sacks
      ensures Valid()
      ensures conn == if seg.payload != [] then Connection.Append(old(conn), seg, old(forwarder.EnvAt(now)))
                      else Connection.AckOnly(old(conn), seg, writable, old(forwarder.EnvAt(now)))
    {
      if seg.payload != [] {
        AppendPayload(seg, now);
      } else {
        HandleAckOnly(seg, writable, now);
      }
    }

    /** The first region: acknowledges and sets the send window. */
    method TakeAcknowledgement(ack: u32, window: nat, now: nat)
      requires Sending()
      modifies forwarder.state, forwarder.state.cache
      ensures Sends(SenderSteps.Acknowledge(ack, window), old(forwarder.EnvAt(now)))
    {
      Joined(before, conn.snd, SenderSteps.Acknowledge(ack, window), forwarder.EnvAt(now));
      forwarder.state.Acknowledge(ack, now);
      forwarder.state.sendWindow := window;
    }

    /** Appends the payload to the window and hands its filled ranges to the sending side. */
    method AppendPayload(seg: Segment, now: nat)
      requires Valid() && phase == Acknowledged(seg) && seg.payload != []
      modifies this, cache, forwarder.state`sacks
      ensures Valid() && conn == Connection.Append(old(conn), seg, old(forwarder.EnvAt(now)))
    {
      ghost var env := forwarder.EnvAt(now);
      if |seg.payload| >= U32_MAX {
        phase := Crashed;
        conn := Connection.Append(conn, seg, env);
        return;
      }
      Reassembly.AppendKeepsOk(conn.rcv.window, seg.sequence, seg.payload);
      var outcome := cache.Append(seg.sequence, seg.payload);
      match outcome {
        case Fault =>
          phase := Crashed;
          conn := Connection.Append(conn, seg, env);
        case Full =>
          phase := Idle;
          conn := Connection.Append(conn, seg, env);
        case Nothing => NoteRanges(seg, None, now);
        case Delivered(payload) => NoteRanges(seg, Some(payload), now);
      }
    }

    /** The region after the window took the payload. */
    method NoteRanges(seg: Segment, payload: Option<seq<byte>>, now: nat)
      requires Sending() && conn.rcv.window.Ok() && WindowSpec.Segment(seg.payload)
      requires
        var rcv := Reassembly.Step(conn.rcv, Reassembly.Arrival(seg.sequence, seg.payload));
        cache.Valid() && cache.View() == rcv.window
      requires cache.View().Ok() && conn.rx == RxView() && conn.out == out
      modifies this`phase, this`conn, forwarder.state`sacks
      ensures Valid() && conn == Connection.Note(old(conn), seg, payload, old(forwarder.EnvAt(now)))
    {
      ghost var env := forwarder.EnvAt(now);
      phase := Appended(seg, payload);
      if sackPerm {
        var ranges := cache.Filled();
        forwarder.state.SetSacks(ranges);
        Joined(before, conn.snd, SenderSteps.SetSacks(ranges), env);
      }
      conn := Connection.Note(conn, seg, payload, env);
    }

    /** Once the stream took the bytes: counts them, reports the window and acknowledges. */
    method ReplyAppended(seg: Segment, payload: Option<seq<byte>>, written: bool, now: nat)
      requires Valid() && phase == Appended(seg, payload)
      modifies this, forwarder`sent, forwarder.state`window, forwarder.state`acknowledgement
      ensures Valid() && conn == Connection.Reply(old(conn), seg, payload, written, old(forwarder.EnvAt(now)))
    {
      ghost var env := forwarder.EnvAt(now);
      var window := cache.Remaining() / SenderFacts.Power2(wscale) % 0x1_0000;
      match payload {
        case None =>
          SendReply(forwarder.state.acknowledgement, window, now);
          phase := Replied(seg);
          conn := Connection.Reply(conn, seg, None, written, env);
        case Some(bytes) =>
          if written {
            ReplyWritten(seg, bytes, window, now);
          } else {
            phase := Gone;
            conn := Connection.Reply(conn, seg, Some(bytes), false, env);
          }
      }
    }

    method ReplyWritten(seg: Segment, bytes: seq<byte>, window: nat, now: nat)
      requires Valid() && phase == Appended(seg, Some(bytes)) && window == Advertised(conn.rcv.window, wscale)
      modifies this, forwarder`sent, forwarder.state`window, forwarder.state`acknowledgement
      ensures Valid() && conn == Connection.Reply(old(conn), seg, Some(bytes), true, old(forwarder.EnvAt(now)))
    {
      ghost var env := forwarder.EnvAt(now);
      var n := |bytes| % U32_SIZE;
      SendReply(Add(forwarder.state.acknowledgement, n), window, now);
      recvNext := Add(recvNext, n);
      out := out + bytes;
      phase := Replied(seg);
      conn := Connection.Reply(conn, seg, Some(bytes), true, env);
    }

    /** Sets what the next frames report and sends an acknowledgement without payload. */
    method SendReply(acknowledgement: u32, window: nat, now: nat)
      requires Sending()
      modifies forwarder`sent, forwarder.state`window, forwarder.state`acknowledgement
      ensures Sends(SenderSteps.Reply(acknowledgement, window), old(forwarder.EnvAt(now)))
    {
      Joined(before, conn.snd, SenderSteps.Reply(acknowledgement, window), forwarder.EnvAt(now));
      forwarder.state.window := window;
      forwarder.state.acknowledgement := acknowledgement;
      forwarder.SendTcpAck0(now);
    }

    /** The forwarder is where the event takes the sending side. */
    ghost predicate Sends(e: SenderSteps.Event, env: Env)
      reads this, forwarder, forwarder.state, forwarder.state.cache
    {
      && forwarder.Valid()
      && conn.snd.tx.cache.Ok() && 0 < env.mss
      && var snd := SenderSteps.Step(conn.snd, e, env);
         snd.tx == forwarder.state.View() && forwarder.sent == before + snd.log
    }

    method SendMore(now: nat) returns (ok: bool)
      requires Sending()
      modifies forwarder`sent, forwarder.state, forwarder.state.cache
      ensures Sends(SenderSteps.SendMore, old(forwarder.EnvAt(now)))
      ensures ok == SenderSteps.React(conn.snd.tx, SenderSteps.SendMore, old(forwarder.EnvAt(now))).ok
    {
      Joined(before, conn.snd, SenderSteps.SendMore, forwarder.EnvAt(now));
      ok := forwarder.SendTcpAck(now);
    }

    /** Triggers sending remaining data. */
    method SendRemaining(seg: Segment, now: nat)
      requires Valid() && phase == Replied(seg)
      modifies this, forwarder`sent, forwarder.state, forwarder.state.cache
      ensures Valid() && conn == Connection.Step(old(conn), Connection.Proceed(true), old(forwarder.EnvAt(now)))
    {
      ghost var env := forwarder.EnvAt(now);
      var ok := SendMore(now);
      phase := if ok && (seg.fin || finSequence.Some?) then CheckFin(seg) else Idle;
      conn := Connection.Step(conn, Connection.Proceed(true), env);
    }

    /** Counts a duplicate acknowledgement; true if it is time for a fast retransmission. */
    method IncreaseDuplicate(acknowledgement: u32, now: nat) returns (fast: bool)
      modifies this`duplicate, this`lastAcknowledgement
      ensures (RxView(), fast) == old(RxView()).IncreaseDuplicate(acknowledgement, now)
    {
      fast := false;
      if lastAcknowledgement == acknowledgement {
        duplicate := duplicate + 1;
        if duplicate >= DUPLICATES_THRESHOLD {
          var coolingDown := lastRetrans.Some? && now < lastRetrans.value + RETRANS_COOL_DOWN;
          fast := !coolingDown;
        }
      } else {
        duplicate := 0;
        lastAcknowledgement := acknowledgement;
      }
    }

    /** A segment without payload: the last acknowledgement, or a duplicate to react to. */
    method HandleAckOnly(seg: Segment, writable: bool, now: nat)
      requires Valid() && phase == Acknowledged(seg)
      modifies this, forwarder`sent, forwarder.state`sequence
      ensures Valid() && conn == Connection.AckOnly(old(conn), seg, writable, old(forwarder.EnvAt(now)))
    {
      ghost var env := forwarder.EnvAt(now);
      if !writable && forwarder.state.cache.size + |forwarder.state.queue| == 0 {
        phase := Gone;
        conn := Connection.AckOnly(conn, seg, writable, env);
        return;
      }
      var fast := IncreaseDuplicate(seg.acknowledgement, now);
      phase := Replied(seg);
      if fast && seg.window != 0 {
        ReactFast(seg, writable, now);
      } else {
        conn := Connection.AckOnly(conn, seg, writable, env);
      }
    }

    /** The third duplicate: retransmits, and starts counting anew unless a cache read failed. */
    method ReactFast(seg: Segment, writable: bool, now: nat)
      requires Sending() && cache.Valid() && conn.rcv.window == cache.View() && conn.rcv.window.Ok() && conn.out == out
      requires phase == Replied(seg) && seg.window != 0
      requires writable || |conn.snd.tx.cache.bytes| + |conn.snd.tx.queue| != 0
      requires conn.rx.IncreaseDuplicate(seg.acknowledgement, now) == (RxView(), true)
      modifies this, forwarder`sent, forwarder.state`sequence
      ensures Valid() && conn == Connection.AckOnly(old(conn), seg, writable, old(forwarder.EnvAt(now)))
    {
      var ok;
      ghost var snd;
      ok, snd := FastRetransmit(seg, writable, now);
      if ok {
        duplicate := 0;
        lastRetrans := Some(now);
      } else {
        phase := Idle;
      }
      conn := conn.(snd := snd, rx := RxView(), phase := phase);
    }

    /** Selective if the peer sent blocks, the whole cache otherwise. */
    method FastRetransmit(seg: Segment, ghost writable: bool, now: nat) returns (ok: bool,
                          ghost snd: SenderSteps.Sender)
      requires Sending() && seg.window != 0
      requires writable || |conn.snd.tx.cache.bytes| + |conn.snd.tx.queue| != 0
      requires conn.rx.IncreaseDuplicate(seg.acknowledgement, now) == (RxView(), true)
      modifies forwarder`sent, forwarder.state`sequence
      ensures forwarder.Valid() && snd.tx == forwarder.state.View() && forwarder.sent == before + snd.log
      ensures Connection.AckOnly(conn, seg, writable, old(forwarder.EnvAt(now))) == conn.(
        snd := snd,
        rx := if ok then RxView().(duplicate := 0, lastRetrans := Some(now)) else RxView(),
        phase := if ok then Replied(seg) else Idle)
    {
      ghost var env := forwarder.EnvAt(now);
      ghost var e;
      if sackPerm && seg.blocks != [] {
        e := SenderSteps.SelectiveRetransmit(seg.blocks);
        ok := forwarder.RetransmitTcpAckWithout(seg.blocks, now);
      } else {
        e := SenderSteps.FastRetransmit;
        forwarder.RetransmitTcpAck(now);
        ok := true;
      }
      Joined(before, conn.snd, e, env);
      snd := SenderSteps.Step(conn.snd, e, env);
      AckOnlyFast(conn, seg, writable, env, e, RxView());
    }

    /** Records a FIN and admits it once everything before it has been delivered. */
    method HandleTcpFin(seg: Segment, readable: bool, now: nat)
      requires Valid() && phase == CheckFin(seg)
      modifies this, forwarder`sent, forwarder.state`window, forwarder.state`acknowledgement
      ensures Valid() && conn == Connection.HandleFin(old(conn), seg, readable, old(forwarder.EnvAt(now)))
    {
      ghost var env := forwarder.EnvAt(now);
      var fin := if seg.fin then Some(Add(seg.sequence, |seg.payload| % U32_SIZE)) else finSequence;
      if fin == Some(recvNext) {
        AdmitFin(seg, readable, now);
      } else {
        finSequence := fin;
        phase := Idle;
        if fin.Some? && seg.payload == [] {
          SendReply(forwarder.state.acknowledgement, forwarder.state.window, now);
        }
        conn := Connection.HandleFin(conn, seg, readable, env);
      }
    }

    method AdmitFin(seg: Segment, readable: bool, now: nat)
      requires Valid() && phase == CheckFin(seg) && KnownFin(conn, seg) == Some(recvNext)
      modifies this, forwarder`sent, forwarder.state`window, forwarder.state`acknowledgement
      ensures Valid() && conn == Connection.HandleFin(old(conn), seg, readable, old(forwarder.EnvAt(now)))
    {
      ghost var env := forwarder.EnvAt(now);
      finSequence := None;
      recvNext := Add(recvNext, 1);
      SendReply(Add(forwarder.state.acknowledgement, 1), forwarder.state.window, now);
      phase := if readable then Idle else Gone;
      conn := Connection.HandleFin(conn, seg, readable, env);
    }
  }

  /**
   * A connection from its SYN on: makes the transmit state, the receive window and the endpoint as
   * `handle_tcp_syn` does, opens, and runs. The peer's scale is at most 8.
   */
  method Serve(isn: u32, start: u32, window: nat, wscale: nat, sackPerm: bool, env: Env,
               events: seq<(Event, Env)>, ghost stream: seq<byte>)
    returns (endpoint: Endpoint)
    requires window <= U16_MAX && wscale <= MAX_RECV_WSCALE && 0 < env.mss
    requires
      var sendWindow := window * SenderFacts.Power2(wscale);
      var capacity := RECV_WINDOW * SenderFacts.Power2(wscale);
      (OpenedInvIff(isn, stream, start, window, wscale, sackPerm, env.now, sendWindow, capacity);
       AllowedRun(isn, stream, start, Opened(isn, start, sendWindow, capacity, wscale, sackPerm, env.now), events))
    ensures fresh(endpoint) && endpoint.Valid()
    ensures endpoint.out <= stream && endpoint.forwarder.state.acknowledgement == endpoint.recvNext
    ensures endpoint.conn.fins <= 1 && (endpoint.conn.fins == 1 ==> endpoint.out == stream)
  {
    var sendWindow := window * SenderFacts.Power2(wscale);
    var capacity := RECV_WINDOW * SenderFacts.Power2(wscale);
    SenderFacts.WindowFitsCache(window, wscale, wscale);
    OpenedInvIff(isn, stream, start, window, wscale, sackPerm, env.now, sendWindow, capacity);
    var state := new TcpTxState(isn, start, sendWindow, capacity);
    var forwarder := new Forwarder(state, env.mss, env.localMtu);
    forwarder.Open(env.now);
    var cache := new Window.WithCapacity(capacity, start);
    ghost var snd := SenderRun.Opened(isn, start, sendWindow, capacity, env.now);
    endpoint := new Endpoint(forwarder, cache, start, wscale, sackPerm, snd);
    endpoint.Drive(events, isn, stream, start);
  }

  /** The reaction to a duplicate that asks for a retransmission. */
  lemma AckOnlyFast(c: Conn, seg: Segment, writable: bool, env: Env, e: SenderSteps.Event, rx: Rx)
    requires c.snd.tx.cache.Ok() && 0 < env.mss && seg.window != 0
    requires writable || |c.snd.tx.cache.bytes| + |c.snd.tx.queue| != 0
    requires c.rx.IncreaseDuplicate(seg.acknowledgement, env.now) == (rx, true)
    requires e == if rx.sackPerm && seg.blocks != [] then SenderSteps.SelectiveRetransmit(seg.blocks)
             else SenderSteps.FastRetransmit
    ensures Connection.AckOnly(c, seg, writable, env) == c.(snd := SenderSteps.Step(c.snd, e, env)).(
      rx := if SenderSteps.React(c.snd.tx, e, env).ok then rx.(duplicate := 0, lastRetrans := Some(env.now)) else rx,
      phase := if SenderSteps.React(c.snd.tx, e, env).ok then Replied(seg) else Idle)
  {
  }

  /** Frames sent so far, and those of one more event. */
  lemma Joined(before: seq<Frame>, snd: SenderSteps.Sender, e: SenderSteps.Event, env: Env)
    requires snd.tx.cache.Ok() && 0 < env.mss
    ensures before + SenderSteps.Step(snd, e, env).log == (before + snd.log) + SenderSteps.React(snd.tx, e, env).frames
    ensures SenderSteps.Step(snd, e, env).tx == SenderSteps.React(snd.tx, e, env).tx
  {
  }
}
