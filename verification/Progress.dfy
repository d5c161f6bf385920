/**
 * What a connection does for its peer and its stream, step by step: segments are taken, bytes are
 * handed on, acknowledgements and data leave. The invariants of `Connection` would also hold of an
 * endpoint that does nothing; these statements do not.
 */
module Progress {
  import opened Basics
  import opened SequenceNumbers
  import opened SendQueue
  import opened Transmit
  import opened Connection
  import opened OnTheWire
  import WindowSpec
  import Reassembly
  import FastRetransmission
  import SenderSteps
  import SenderRun
  import SenderFacts

  /** The frames one step put on the wire. */
  ghost function Sent(c: Conn, c': Conn): seq<Frame> {
    if |c.snd.log| <= |c'.snd.log| then c'.snd.log[|c.snd.log|..] else []
  }

  lemma SentIs(c: Conn, c': Conn, frames: seq<Frame>)
    requires c'.snd.log == c.snd.log + frames
    ensures Sent(c, c') == frames
  {
  }

  /** The window a frame shows for a free window of `free`: nothing below the silly-window threshold. */
  function Shown(free: nat, env: Env): nat {
    if free < Min(32767, env.localMtu) then 0 else free
  }

  /** One acknowledgement leaves: of everything the stream has taken, with the ranges held beyond it. */
  ghost predicate Acknowledges(start: u32, c: Conn, c': Conn, window: nat)
    requires c.rcv.window.Ok()
  {
    && |Sent(c, c')| == 1
    && var f := Sent(c, c')[0];
       && f.PureAck? && f.sequence == c.snd.tx.sequence && f.window == window
       && f.acknowledgement == SeqAt(start, |c'.out| + c'.fins)
       && (c.rx.sackPerm ==> f.sacks == SacksOf(c.rcv.window))
  }

  // ---------------------------------------------------------------------------------------------
  // Receiving
  // ---------------------------------------------------------------------------------------------

  /**
   * An arriving acknowledgement of position `t`: the bytes up to it are acknowledged and leave the
   * cache, and the send window becomes the one reported, scaled.
   */
  lemma ArriveAcknowledges(isn: u32, stream: seq<byte>, start: u32, c: Conn, seg: Segment, t: nat, env: Env)
    requires Inv(isn, stream, start, c) && 0 < env.mss && c.phase.Idle? && seg.window <= U16_MAX
    requires c.snd.tx.cacheSyn.None? && !c.snd.finished && SenderSteps.AckAt(isn, c.snd, seg.acknowledgement, t)
    ensures
      var c' := Step(c, Arrive(seg, true), env);
      && c'.phase == Acknowledged(seg) && c'.snd.tx.sendWindow == seg.window * SenderFacts.Power2(c.rx.wscale)
      && c'.snd.acked == (if 1 + c.snd.acked <= t then t - 1 else c.snd.acked)
      && c'.snd.tx.cache.bytes + c'.snd.tx.queue == c.snd.stream[c'.snd.acked..]
  {
    var window := seg.window * SenderFacts.Power2(c.rx.wscale);
    SenderFacts.WindowFitsCache(seg.window, c.rx.wscale, 0);
    AcknowledgesTo(isn, c.snd, seg.acknowledgement, t, window, env);
  }

  lemma AcknowledgesTo(isn: u32, s: SenderSteps.Sender, ack: u32, t: nat, window: nat, env: Env)
    requires SenderRun.Inv(isn, s) && 0 < env.mss && window <= s.tx.cache.capacity
    requires s.tx.cacheSyn.None? && !s.finished && SenderSteps.AckAt(isn, s, ack, t)
    ensures
      var s' := SenderSteps.Step(s, SenderSteps.Acknowledge(ack, window), env);
      && s'.tx.sendWindow == window && s'.acked == (if 1 + s.acked <= t then t - 1 else s.acked)
      && s'.stream == s.stream && s'.tx.cache.bytes + s'.tx.queue == s.stream[s'.acked..]
  {
    SenderRun.StepKeeps(isn, s, SenderSteps.Acknowledge(ack, window), env);
    AheadByPosition(isn, 1 + s.acked, t);
    SenderSteps.AcknowledgeDoes(s, ack, window, env);
  }

  /** A segment the window can take: it reaches past the base, starts at most a window ahead, and fits. */
  ghost predicate Takes(start: u32, rcv: Reassembly.Receiver, seg: Segment, pos: nat) {
    var base, end := |rcv.out|, pos + |seg.payload|;
    && base < end <= base + rcv.window.capacity && pos <= base + MAX_WINDOW
    && (pos < base ==> seg.sequence + |seg.payload| <= U32_MAX)
  }

  /** Every byte of such a segment is known afterwards; if it reaches the base, all up to its end are handed out. */
  lemma TakenIsKnown(stream: seq<byte>, start: u32, r: Reassembly.Receiver, seg: Segment, pos: nat)
    requires Reassembly.Tracks(stream, start, r)
    requires Reassembly.SliceAt(stream, start, Reassembly.Arrival(seg.sequence, seg.payload), pos)
    requires WindowSpec.InSight(|r.out|, pos, |seg.payload|) && Takes(start, r, seg, pos)
    ensures
      var r' := Reassembly.Step(r, Reassembly.Arrival(seg.sequence, seg.payload));
      var outcome := r.window.Append(seg.sequence, seg.payload).1;
      && (outcome.Nothing? || outcome.Delivered?)
      && (forall x: nat :: pos <= x < pos + |seg.payload| ==> Reassembly.Known(r', x))
      && (pos <= |r.out| ==> outcome.Delivered? && pos + |seg.payload| <= |r'.out|)
  {
    var a := Reassembly.Arrival(seg.sequence, seg.payload);
    var r' := Reassembly.Step(r, a);
    Reassembly.StepByPosition(start, r, a, pos);
    WindowSpec.LocateByPosition(start, |r.out|, pos, seg.payload);
    var place := WindowSpec.PlaceOf(a.sequence, |r.out|, pos, seg.payload);
    Reassembly.AcceptKeepsOk(r.window, place.at, place.body);
    Reassembly.StoreHandsOut(r, place.at, place.body);
    forall x: nat | pos <= x < pos + |seg.payload|
      ensures Reassembly.Known(r', x)
    {
      Reassembly.StoreEffect(r, place.at, place.body, x);
    }
    if pos <= |r.out| {
      assert !Reassembly.Known(r', |r'.out|);
    }
  }

  /**
   * A segment that the window can take is taken: the next region goes on to the reply, and every
   * byte of it is handed out or held. If it reaches the base, everything up to its end is handed out.
   */
  lemma SegmentIsTaken(isn: u32, stream: seq<byte>, start: u32, c: Conn, seg: Segment, pos: nat, choice: bool,
                       env: Env)
    requires Inv(isn, stream, start, c) && 0 < env.mss && c.phase == Acknowledged(seg) && seg.payload != []
    requires Reassembly.SliceAt(stream, start, Reassembly.Arrival(seg.sequence, seg.payload), pos)
    requires WindowSpec.InSight(|c.rcv.out|, pos, |seg.payload|) && Takes(start, c.rcv, seg, pos)
    ensures
      var c' := Step(c, Proceed(choice), env);
      && c'.phase.Appended? && c'.phase.seg == seg && c'.out == c.out
      && (forall x: nat :: pos <= x < pos + |seg.payload| ==> Reassembly.Known(c'.rcv, x))
      && (pos <= |c.rcv.out| ==> c'.phase.payload.Some? && pos + |seg.payload| <= |c.out| + |Pending(c'.phase)|)
  {
    TakenIsKnown(stream, start, c.rcv, seg, pos);
    AppendKeeps(isn, stream, start, c, seg, env);
  }

  /**
   * A segment the window cannot take: one that reaches past its capacity is dropped, one that the
   * placing cannot handle makes the program panic; either way nothing else changes and nothing is sent.
   */
  lemma SegmentIsRejected(isn: u32, stream: seq<byte>, start: u32, c: Conn, seg: Segment, pos: nat, choice: bool,
                          env: Env)
    requires Inv(isn, stream, start, c) && 0 < env.mss && c.phase == Acknowledged(seg) && seg.payload != []
    requires Reassembly.SliceAt(stream, start, Reassembly.Arrival(seg.sequence, seg.payload), pos)
    requires WindowSpec.InSight(|c.rcv.out|, pos, |seg.payload|)
    ensures
      var c', base, end := Step(c, Proceed(choice), env), |c.rcv.out|, pos + |seg.payload|;
      var broken := end < base || base + MAX_WINDOW < pos
                    || (pos < base < end && seg.sequence + |seg.payload| > U32_MAX);
      && (broken ==> c' == c.(phase := Crashed))
      && (!broken && base + c.rcv.window.capacity < end ==> c' == c.(phase := Idle))
  {
    Reassembly.RejectedByPosition(start, c.rcv, Reassembly.Arrival(seg.sequence, seg.payload), pos);
  }

  /** A segment without ACK is only looked at for its FIN. */
  lemma PureFinIsLookedAt(c: Conn, seg: Segment, env: Env)
    requires c.snd.tx.cache.Ok() && c.rcv.window.Ok() && 0 < env.mss && c.phase.Idle?
    ensures Step(c, Arrive(seg, false), env) == c.(phase := CheckFin(seg))
  {
  }

  /** Once writing is over and everything sent was acknowledged, an acknowledgement without payload is the last. */
  lemma LastAcknowledgementEnds(c: Conn, seg: Segment, env: Env)
    requires c.snd.tx.cache.Ok() && c.rcv.window.Ok() && 0 < env.mss
    requires c.phase == Acknowledged(seg) && seg.payload == []
    requires c.snd.tx.cache.bytes == [] && c.snd.tx.queue == []
    ensures Step(c, Proceed(false), env) == c.(phase := Gone)
  {
  }

  /**
   * The reply. Once the stream has taken the bytes in order, they count as delivered, and exactly
   * one frame leaves: an acknowledgement of everything delivered, showing what is left of the
   * window, with the ranges held beyond it as SACK blocks.
   */
  lemma ReplyOnWire(isn: u32, stream: seq<byte>, start: u32, c: Conn, seg: Segment, payload: Option<seq<byte>>,
                    env: Env)
    requires Inv(isn, stream, start, c) && 0 < env.mss && c.phase == Appended(seg, payload)
    ensures
      var c' := Step(c, Proceed(true), env);
      && c'.phase == Replied(seg) && c'.out == c.rcv.out
      && Acknowledges(start, c, c', Shown(Free(c.rcv.window, c.rx.wscale), env))
  {
    var c' := Step(c, Proceed(true), env);
    ReplyKeeps(isn, stream, start, c, seg, payload, true, env);
    NoTruncation(c.rcv.window, c.rx.wscale);
    ReplyFrame(c.snd, c'.snd.tx.acknowledgement, Advertised(c.rcv.window, c.rx.wscale), env);
    ReplyIs(c, seg, payload, env);
    assert c.out + [] == c.out;
  }

  /** The reply region on the sending side. */
  lemma ReplyFrame(snd: SenderSteps.Sender, acknowledgement: u32, window: nat, env: Env)
    requires snd.tx.cache.Ok() && 0 < env.mss
    ensures
      var snd' := SenderSteps.Step(snd, SenderSteps.Reply(acknowledgement, window), env);
      && snd'.tx.acknowledgement == acknowledgement
      && snd'.log == snd.log + [PureAck(snd.tx.sequence, acknowledgement, Shown(window, env), snd.tx.sacks)]
  {
  }

  lemma ReplyIs(c: Conn, seg: Segment, payload: Option<seq<byte>>, env: Env)
    requires c.snd.tx.cache.Ok() && c.rcv.window.Ok() && 0 < env.mss && c.phase == Appended(seg, payload)
    ensures
      var c' := Step(c, Proceed(true), env);
      var reply := SenderSteps.Reply(c'.snd.tx.acknowledgement, Advertised(c.rcv.window, c.rx.wscale));
      && c'.snd == SenderSteps.Step(c.snd, reply, env) && c'.phase == Replied(seg) && c'.fins == c.fins
      && c'.out == c.out + Pending(c.phase)
  {
    assert c.out + [] == c.out;
  }

  /** What is left of the window, in units of its scale. */
  function Free(w: WindowSpec.WindowState, wscale: nat): nat
    requires w.Ok()
  {
    Units(w.capacity - w.size, SenderFacts.Power2(wscale))
  }

  function Units(free: nat, unit: nat): nat
    requires unit > 0
  {
    free / unit
  }

  /** The 16 bits never cut the advertised window. */
  lemma NoTruncation(w: WindowSpec.WindowState, wscale: nat)
    requires w.Ok() && w.capacity == RECV_WINDOW * SenderFacts.Power2(wscale)
    ensures Advertised(w, wscale) == Free(w, wscale) <= U16_MAX
  {
    Fits16(w.capacity - w.size, SenderFacts.Power2(wscale));
  }

  lemma Fits16(free: nat, unit: nat)
    requires unit > 0 && free <= U16_MAX * unit
    ensures free / unit % 0x1_0000 == free / unit <= U16_MAX
  {
    assert (U16_MAX + 1) * unit == U16_MAX * unit + unit;
    assert free / unit * unit <= free;
    if free / unit >= U16_MAX + 1 {
      SenderFacts.MulGrows(U16_MAX + 1, unit, free / unit, unit);
    }
  }

  /** After the reply remaining data is sent, and a segment with a FIN, or a known FIN, is looked at next. */
  lemma RepliedGoesOn(isn: u32, stream: seq<byte>, start: u32, c: Conn, seg: Segment, choice: bool, env: Env)
    requires Inv(isn, stream, start, c) && 0 < env.mss && c.phase == Replied(seg)
    requires !SenderSteps.FinOvertakes(c.snd.tx)
    ensures
      var c' := Step(c, Proceed(choice), env);
      && c'.phase == (if seg.fin || c.rx.finSequence.Some? then CheckFin(seg) else Idle)
      && c'.out == c.out && c'.fins == c.fins && c'.rx == c.rx
      && Sent(c, c') == c.snd.tx.SendTcpAck(env).frames && c'.snd.tx == c.snd.tx.SendTcpAck(env).tx
  {
    SenderSteps.SendTcpAckKeeps(isn, c.snd, env);
    SentIs(c, Step(c, Proceed(choice), env), c.snd.tx.SendTcpAck(env).frames);
  }

  /**
   * A known FIN on the wire: admitted exactly when everything before it was delivered and none was
   * admitted yet, and then acknowledged, one past the last byte. One that has to wait is remembered
   * and, without payload, answered with what is acknowledged so far; otherwise nothing is sent.
   */
  lemma FinOnWire(isn: u32, stream: seq<byte>, start: u32, c: Conn, seg: Segment, readable: bool, env: Env)
    requires Inv(isn, stream, start, c) && 0 < env.mss && c.phase == CheckFin(seg)
    ensures
      var c' := Step(c, Proceed(readable), env);
      var known := seg.fin || c.rx.finSequence.Some?;
      if known && c.out == stream && c.fins == 0 then
        && c'.fins == 1 && c'.phase == (if readable then Idle else Gone) && c'.rx.finSequence == None
        && Acknowledges(start, c, c', Shown(c.snd.tx.window, env))
      else
        && c'.fins == c.fins && c'.phase == Idle
        && (known ==> c'.rx.finSequence == Some(SeqAt(start, |stream|)))
        && if known && seg.payload == [] then Acknowledges(start, c, c', Shown(c.snd.tx.window, env))
           else Sent(c, c') == []
  {
    HandleFinKeeps(isn, stream, start, c, seg, readable, env);
    KnownFinNumber(stream, start, c, seg);
    if KnownFin(c, seg) == Some(c.rx.recvNext) {
      AdmittedOnWire(isn, stream, start, c, seg, readable, env);
    } else {
      WaitingOnWire(isn, stream, start, c, seg, readable, env);
    }
  }

  lemma AdmittedOnWire(isn: u32, stream: seq<byte>, start: u32, c: Conn, seg: Segment, readable: bool, env: Env)
    requires Inv(isn, stream, start, c) && 0 < env.mss && c.phase == CheckFin(seg)
    requires KnownFin(c, seg) == Some(c.rx.recvNext) && Inv(isn, stream, start, HandleFin(c, seg, readable, env))
    ensures
      var c' := HandleFin(c, seg, readable, env);
      && c'.fins == c.fins + 1 && c'.phase == (if readable then Idle else Gone) && c'.rx.finSequence == None
      && Acknowledges(start, c, c', Shown(c.snd.tx.window, env))
  {
    var c' := HandleFin(c, seg, readable, env);
    SentIs(c, c', [c.snd.tx.(acknowledgement := c'.snd.tx.acknowledgement).AckFrame(env)]);
  }

  lemma WaitingOnWire(isn: u32, stream: seq<byte>, start: u32, c: Conn, seg: Segment, readable: bool, env: Env)
    requires Inv(isn, stream, start, c) && 0 < env.mss && c.phase == CheckFin(seg)
    requires KnownFin(c, seg) != Some(c.rx.recvNext) && Inv(isn, stream, start, HandleFin(c, seg, readable, env))
    ensures
      var c' := HandleFin(c, seg, readable, env);
      && c'.fins == c.fins && c'.phase == Idle && c'.rx.finSequence == KnownFin(c, seg)
      && if KnownFin(c, seg).Some? && seg.payload == [] then Acknowledges(start, c, c', Shown(c.snd.tx.window, env))
         else Sent(c, c') == []
  {
    var c' := HandleFin(c, seg, readable, env);
    if KnownFin(c, seg).Some? && seg.payload == [] {
      SentIs(c, c', [c.snd.tx.AckFrame(env)]);
    }
  }

  /**
   * The last segment finishes the stream: one that carries the FIN and brings the missing bytes is
   * handed on, acknowledged, and its FIN admitted and acknowledged in turn.
   */
  lemma LastSegmentFinishes(isn: u32, stream: seq<byte>, start: u32, c: Conn, seg: Segment, pos: nat, env: Env)
    requires Inv(isn, stream, start, c) && 0 < env.mss && c.phase == Acknowledged(seg) && seg.payload != [] && seg.fin
    requires Reassembly.SliceAt(stream, start, Reassembly.Arrival(seg.sequence, seg.payload), pos)
    requires pos + |seg.payload| == |stream|
    requires WindowSpec.InSight(|c.rcv.out|, pos, |seg.payload|) && Takes(start, c.rcv, seg, pos) && pos <= |c.rcv.out|
    requires c.fins == 0 && !SenderSteps.FinOvertakes(c.snd.tx)
    ensures
      var c1 := Step(c, Proceed(true), env);
      && Inv(isn, stream, start, c1)
      && var c2 := Step(c1, Proceed(true), env);
         && Inv(isn, stream, start, c2) && c2.out == stream
         && var c3 := Step(c2, Proceed(true), env);
            && Inv(isn, stream, start, c3)
            && var c4 := Step(c3, Proceed(true), env);
               c4.out == stream && c4.fins == 1 && c4.phase == Idle
  {
    SegmentIsTaken(isn, stream, start, c, seg, pos, true, env);
    AppendKeeps(isn, stream, start, c, seg, env);
    var c1 := Step(c, Proceed(true), env);
    SameQueue(c, seg, env);
    TakenFinishes(isn, stream, start, c1, seg, env);
  }

  /** Taking a segment leaves what is to be sent alone. */
  lemma SameQueue(c: Conn, seg: Segment, env: Env)
    requires c.snd.tx.cache.Ok() && c.rcv.window.Ok() && 0 < env.mss && seg.payload != []
    ensures
      var c' := Append(c, seg, env);
      c'.fins == c.fins && (SenderSteps.FinOvertakes(c'.snd.tx) <==> SenderSteps.FinOvertakes(c.snd.tx))
  {
    if |seg.payload| < U32_MAX {
      match c.rcv.window.Append(seg.sequence, seg.payload).1 {
        case Fault =>
        case Full =>
        case Nothing => NotedQueue(c, seg, None, env);
        case Delivered(payload) => NotedQueue(c, seg, Some(payload), env);
      }
    }
  }

  lemma NotedQueue(c: Conn, seg: Segment, payload: Option<seq<byte>>, env: Env)
    requires c.snd.tx.cache.Ok() && c.rcv.window.Ok() && 0 < env.mss && WindowSpec.Segment(seg.payload)
    ensures
      var c' := Note(c, seg, payload, env);
      c'.fins == c.fins && (SenderSteps.FinOvertakes(c'.snd.tx) <==> SenderSteps.FinOvertakes(c.snd.tx))
  {
  }

  lemma TakenFinishes(isn: u32, stream: seq<byte>, start: u32, c: Conn, seg: Segment, env: Env)
    requires Inv(isn, stream, start, c) && 0 < env.mss && c.phase.Appended? && c.phase.seg == seg && seg.fin
    requires |stream| <= |c.out| + |Pending(c.phase)| && c.fins == 0 && !SenderSteps.FinOvertakes(c.snd.tx)
    ensures
      var c2 := Step(c, Proceed(true), env);
      && Inv(isn, stream, start, c2) && c2.out == stream
      && var c3 := Step(c2, Proceed(true), env);
         && Inv(isn, stream, start, c3)
         && var c4 := Step(c3, Proceed(true), env);
            c4.out == stream && c4.fins == 1 && c4.phase == Idle
  {
    ReplyFollows(isn, stream, start, c, seg, env);
    var c2 := Step(c, Proceed(true), env);
    RepliedFinishes(isn, stream, start, c2, seg, env);
  }

  lemma RepliedFinishes(isn: u32, stream: seq<byte>, start: u32, c: Conn, seg: Segment, env: Env)
    requires Inv(isn, stream, start, c) && 0 < env.mss && c.phase == Replied(seg) && seg.fin
    requires c.out == stream && c.fins == 0 && !SenderSteps.FinOvertakes(c.snd.tx)
    ensures
      var c3 := Step(c, Proceed(true), env);
      && Inv(isn, stream, start, c3)
      && var c4 := Step(c3, Proceed(true), env);
         c4.out == stream && c4.fins == 1 && c4.phase == Idle
  {
    RepliedGoesOn(isn, stream, start, c, seg, true, env);
    SendMoreKeeps(isn, stream, start, c, seg, true, env);
    FinOnWire(isn, stream, start, Step(c, Proceed(true), env), seg, true, env);
  }

  /** The reply of a segment whose bytes complete the stream. */
  lemma ReplyFollows(isn: u32, stream: seq<byte>, start: u32, c: Conn, seg: Segment, env: Env)
    requires Inv(isn, stream, start, c) && 0 < env.mss && c.phase.Appended? && c.phase.seg == seg
    requires |stream| <= |c.out| + |Pending(c.phase)|
    ensures
      var c' := Step(c, Proceed(true), env);
      && Inv(isn, stream, start, c') && c'.phase == Replied(seg) && c'.out == stream && c'.fins == c.fins
      && (SenderSteps.FinOvertakes(c'.snd.tx) <==> SenderSteps.FinOvertakes(c.snd.tx))
  {
    ReplyKeeps(isn, stream, start, c, seg, c.phase.payload, true, env);
    ReplyOnWire(isn, stream, start, c, seg, c.phase.payload, env);
    Reassembly.TracksMeans(stream, start, c.rcv);
  }

  // ---------------------------------------------------------------------------------------------
  // Sending
  // ---------------------------------------------------------------------------------------------

  /** What the connection sent and became is what a send of `n` bytes from `tx` does. */
  ghost predicate SendsFrom(tx: Tx, env: Env, c: Conn, c': Conn, n: nat)
    requires tx.WellSized()
  {
    Sends(tx, env, Out(c'.snd.tx, Sent(c, c'), true), n)
  }

  /** Flow control from both sides, as in `SendTakes`. */
  ghost predicate Fair(tx: Tx, env: Env, n: nat, m: nat) {
    && (n > 0 ==> |tx.cache.bytes| + n <= tx.sendWindow && n <= U16_MAX)
    && (n == 0 || tx.cache.bytes == [] || n >= env.mss)
    && (n < m <= |tx.queue| && m <= U16_MAX && |tx.cache.bytes| + m <= tx.sendWindow ==>
          tx.cache.bytes != [] && m < env.mss)
  }

  /**
   * A forward of the worker: refused without effect, kept for later while the SYN is pending, or
   * queued and sent as far as flow control allows.
   */
  lemma ForwardOnWire(isn: u32, stream: seq<byte>, start: u32, c: Conn, payload: seq<byte>, env: Env, m: nat)
    returns (n: nat)
    requires Inv(isn, stream, start, c) && 0 < env.mss
    ensures
      var c' := Step(c, Forward(payload), env);
      var tx := c.snd.tx.(queue := c.snd.tx.queue + payload);
      if SenderSteps.Refuses(c.snd.tx) then c' == c
      else if c.snd.tx.cacheSyn.Some? then
        && c'.snd.tx == tx && c'.snd.stream == c.snd.stream + payload
        && Sent(c, c') == [SynAck(tx.sequence, tx.acknowledgement, Shown(tx.window, env))]
      else SendsFrom(tx, env, c, c', n) && Fair(tx, env, n, m) && c'.snd.stream == c.snd.stream + payload
  {
    n := 0;
    var c' := Step(c, Forward(payload), env);
    var tx := c.snd.tx.(queue := c.snd.tx.queue + payload);
    SentIs(c, c', SenderSteps.React(c.snd.tx, SenderSteps.Forward(payload), env).frames);
    if SenderSteps.Refuses(c.snd.tx) {
      assert c.snd.log + [] == c.snd.log;
    } else if c.snd.tx.cacheSyn.None? {
      n := SendTakes(tx, env, m);
    }
  }

  /** The close: the FIN leaves with the last bytes, alone, or stays queued, as `FinLeavesIff` says. */
  lemma CloseOnWire(isn: u32, stream: seq<byte>, start: u32, c: Conn, env: Env) returns (n: nat)
    requires Inv(isn, stream, start, c) && 0 < env.mss && c.snd.tx.cacheSyn.None? && c.snd.tx.cacheFin.None?
    ensures
      var c' := Step(c, Close, env);
      var tx := c.snd.tx.(queueFin := true);
      var leaves := 0 < n == |tx.queue| || (n == 0 && tx.cache.bytes == []);
      && SendsFrom(tx, env, c, c', n) && c'.snd.closed
      && (leaves <==> c'.snd.tx.cacheFin.Some?) && (leaves <==> !c'.snd.tx.queueFin)
      && (leaves && n > 0 ==> Consecutive(Sent(c, c'), tx.sequence, true, env.mss))
      && (leaves && n == 0 ==> Sent(c, c') == [PureFin(tx.sequence, tx.acknowledgement, Shown(tx.window, env))])
  {
    var tx := c.snd.tx.(queueFin := true);
    SentIs(c, Step(c, Close, env), tx.SendTcpAck(env).frames);
    n := FinLeavesIff(tx, env);
  }

  /** After a reply, queued bytes leave as far as flow control allows. */
  lemma RemainingOnWire(isn: u32, stream: seq<byte>, start: u32, c: Conn, seg: Segment, choice: bool, env: Env, m: nat)
    returns (n: nat)
    requires Inv(isn, stream, start, c) && 0 < env.mss && c.phase == Replied(seg) && c.snd.tx.cacheSyn.None?
    requires !SenderSteps.FinOvertakes(c.snd.tx)
    ensures SendsFrom(c.snd.tx, env, c, Step(c, Proceed(choice), env), n) && Fair(c.snd.tx, env, n, m)
  {
    RepliedGoesOn(isn, stream, start, c, seg, choice, env);
    n := SendTakes(c.snd.tx, env, m);
  }

  /** A tick with bytes in flight, by the clocks, as in `TickResendsData`. */
  lemma TickOnWire(isn: u32, stream: seq<byte>, start: u32, c: Conn, env: Env, live: nat)
    requires Inv(isn, stream, start, c) && 0 < env.mss && c.snd.tx.cache.bytes != []
    requires live <= |c.snd.tx.cache.clocks|
    requires forall i :: 0 <= i < live ==>
               env.now > c.snd.tx.cache.clocks[i].timer.start + c.snd.tx.cache.clocks[i].timer.timeout
    requires live < |c.snd.tx.cache.clocks| ==>
               env.now <= c.snd.tx.cache.clocks[live].timer.start + c.snd.tx.cache.clocks[live].timer.timeout
    ensures
      var c', q := Step(c, Tick, env), c.snd.tx.cache;
      var n := if live < |q.clocks| then Sub(q.clocks[live].start, q.sequence) else |q.bytes|;
      var fin := n == |q.bytes| && c.snd.tx.cacheFin.Some?;
      && n <= |q.bytes|
      && Carries(Sent(c, c')) == q.bytes[..n] && Consecutive(Sent(c, c'), q.sequence, fin, env.mss)
      && c'.snd.tx.rto == Doubled(c.snd.tx.rto)
      && c'.snd.tx.cacheFin == if fin then Some(Timer(env.now, Doubled(c.snd.tx.rto))) else c.snd.tx.cacheFin
  {
    TickResendsData(c.snd.tx, env, live);
    SentIs(c, Step(c, Tick, env), c.snd.tx.Tick(env).frames);
  }

  /** A tick with nothing in flight but perhaps a FIN, as in `TickResendsFin`. */
  lemma TickFinOnWire(isn: u32, stream: seq<byte>, start: u32, c: Conn, env: Env)
    requires Inv(isn, stream, start, c) && 0 < env.mss && c.snd.tx.cache.bytes == []
    ensures
      var c', tx := Step(c, Tick, env), c.snd.tx;
      var due := tx.cacheFin.Some? && env.now > tx.cacheFin.value.start + tx.cacheFin.value.timeout;
      && Sent(c, c') == (if due then [PureFin(tx.sequence, tx.acknowledgement, Shown(tx.window, env))] else [])
      && c'.snd.tx.rto == (if due then Doubled(tx.rto) else tx.rto)
      && c'.snd.tx.cacheFin == if due then Some(Timer(env.now, Doubled(tx.rto))) else tx.cacheFin
  {
    TickResendsFin(c.snd.tx, env);
    SentIs(c, Step(c, Tick, env), c.snd.tx.Tick(env).frames);
  }

  /** The acknowledgement leads to a fast retransmission; `FastIff` says when. */
  ghost predicate Fires(c: Conn, seg: Segment, writable: bool, env: Env) {
    && (writable || |c.snd.tx.cache.bytes| + |c.snd.tx.queue| != 0)
    && FastRetransmission.Take(c.rx, FastRetransmission.Ack(seg.acknowledgement, env.now, seg.window == 0)).1
  }

  /** A fast retransmission without blocks sends everything in flight again, with the FIN if there is one. */
  lemma FastOnWire(isn: u32, stream: seq<byte>, start: u32, c: Conn, seg: Segment, writable: bool, env: Env)
    requires Inv(isn, stream, start, c) && 0 < env.mss && c.phase == Acknowledged(seg) && seg.payload == []
    requires Fires(c, seg, writable, env) && !(c.rx.sackPerm && seg.blocks != [])
    ensures
      var c' := Step(c, Proceed(writable), env);
      && c'.phase == Replied(seg) && Carries(Sent(c, c')) == c.snd.tx.cache.bytes
      && Consecutive(Sent(c, c'), c.snd.tx.cache.sequence, c.snd.tx.cacheFin.Some?, env.mss)
  {
    FastRetransmission.AckOnlyTakes(c, seg, writable, env);
    FastResends(c.snd.tx, env);
    SentIs(c, Step(c, Proceed(writable), env), c.snd.tx.RetransmitAll(env).frames);
  }

  /** With blocks it is the selective retransmission that `SelectiveExact` describes, unless a cache read fails. */
  lemma SelectiveOnWire(isn: u32, stream: seq<byte>, start: u32, c: Conn, seg: Segment, writable: bool, env: Env)
    requires Inv(isn, stream, start, c) && 0 < env.mss && c.phase == Acknowledged(seg) && seg.payload == []
    requires Fires(c, seg, writable, env) && c.rx.sackPerm && seg.blocks != []
    ensures
      var c', out := Step(c, Proceed(writable), env), c.snd.tx.RetransmitWithout(seg.blocks, env);
      out.ok ==> c'.phase == Replied(seg) && Sent(c, c') == out.frames && c'.snd.tx == out.tx
  {
    FastRetransmission.AckOnlyTakes(c, seg, writable, env);
    SentIs(c, Step(c, Proceed(writable), env), c.snd.tx.RetransmitWithout(seg.blocks, env).frames);
  }
}
