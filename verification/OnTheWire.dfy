/**
 * What the operations of the sending side must put on the wire, said by the bytes, clocks and
 * numbers a caller sees: how much of the queue a send takes, when the FIN leaves, and what every
 * kind of retransmission sends again.
 */
module OnTheWire {
  import opened Basics
  import opened SequenceNumbers
  import opened SendQueue
  import opened SequenceRanges
  import opened Transmit
  import opened SenderSteps

  // ---------------------------------------------------------------------------------------------
  // Frames
  // ---------------------------------------------------------------------------------------------

  /** The data of the frames, one after the other. */
  function Carries(frames: seq<Frame>): seq<byte> { Flatten(Payloads(frames)) }

  /** Data frames that follow each other from number `from` on, all with or all without a FIN. */
  ghost predicate Consecutive(frames: seq<Frame>, from: u32, fin: bool, mss: nat) {
    && (forall i :: 0 <= i < |frames| ==> frames[i].Data? && frames[i].fin == fin)
    && (forall i :: 0 <= i < |frames| ==> 0 < |frames[i].payload| <= Min(mss, U32_MAX))
    && (forall i :: 0 <= i < |frames| - 1 ==>
          frames[i + 1].sequence == Add(frames[i].sequence, |frames[i].payload|))
    && (frames != [] ==> frames[0].sequence == from)
  }

  lemma SegmentsCarry(tx: Tx, from: u32, payload: seq<byte>, fin: bool, env: Env)
    requires 0 < env.mss && |payload| <= U32_MAX
    ensures
      var segments := tx.Segments(from, payload, fin, env);
      Consecutive(segments, from, fin, env.mss) && Carries(segments) == payload && (segments == [] <==> payload == [])
  {
    SegmentsRejoin(tx, from, payload, fin, env);
  }

  /** Every frame reports what the state says at its time. */
  ghost predicate Reports(frames: seq<Frame>, acknowledgement: u32, window: nat) {
    forall i :: 0 <= i < |frames| ==> frames[i].acknowledgement == acknowledgement && frames[i].window == window
  }

  lemma {:induction false} SegmentsReport(tx: Tx, from: u32, payload: seq<byte>, fin: bool, env: Env)
    requires 0 < env.mss && |payload| <= U32_MAX
    ensures Reports(tx.Segments(from, payload, fin, env), tx.acknowledgement, tx.ReportedWindow(env))
    decreases |payload|
  {
    if payload != [] {
      var size := Min(env.mss, |payload|);
      SegmentsReport(tx, Add(from, size), payload[size..], fin, env);
    }
  }

  lemma SendRawReports(tx: Tx, from: u32, payload: seq<byte>, fin: bool, env: Env)
    requires 0 < env.mss && |payload| <= U32_MAX
    ensures
      var out := tx.SendRaw(from, payload, fin, env);
      && Reports(out.frames, tx.acknowledgement, tx.ReportedWindow(env))
      && out.tx == tx.(sequence := out.tx.sequence)
  {
    SegmentsReport(tx, from, payload, fin, env);
  }

  lemma {:induction false} SendRangesReport(tx: Tx, ranges: seq<Range>, env: Env)
    requires tx.WellSized() && 0 < env.mss
    ensures Reports(tx.SendRanges(ranges, env).frames, tx.acknowledgement, tx.ReportedWindow(env))
    decreases |ranges|
  {
    if ranges != [] {
      SendRangeReports(tx, ranges[0], env);
      SendRangesReport(tx.SendRange(ranges[0], env).tx, ranges[1..], env);
    }
  }

  lemma SendRangeReports(tx: Tx, range: Range, env: Env)
    requires tx.WellSized() && 0 < env.mss
    ensures Reports(tx.SendRange(range, env).frames, tx.acknowledgement, tx.ReportedWindow(env))
  {
    match tx.cache.Get(range.0, Sub(range.1, range.0)) {
      case Failed(_) =>
      case Got(payload) =>
        SendRawReports(tx, range.0, payload, range.1 == tx.cache.RecvNext() && tx.cacheFin.Some?, env);
    }
  }

  lemma SendTcpAckReports(tx: Tx, env: Env)
    requires tx.WellSized() && 0 < env.mss
    ensures
      var out := tx.SendTcpAck(env);
      && Reports(out.frames, tx.acknowledgement, tx.ReportedWindow(env))
      && out.tx.acknowledgement == tx.acknowledgement && out.tx.window == tx.window
  {
    var size := tx.Allowance(env.mss);
    if tx.cacheSyn.None? && tx.sendWindow > 0 && 0 < size <= tx.cache.Remaining() {
      var moved := Moved(tx, size, env);
      SendRawReports(moved, tx.sequence, tx.queue[..size], false, env);
      SendRawReports(moved.AppendCacheFin(env.now), tx.sequence, tx.queue[..size], true, env);
    }
  }

  lemma TickReports(tx: Tx, env: Env)
    requires tx.cache.Ok() && 0 < env.mss
    ensures
      var out := tx.Tick(env);
      && Reports(out.frames, tx.acknowledgement, tx.ReportedWindow(env))
      && out.tx.acknowledgement == tx.acknowledgement && out.tx.window == tx.window
  {
    if tx.cache.bytes != [] {
      TickSends(tx, env);
      var payload := TickPayload(tx, env);
      var fin := |tx.cache.bytes| == |payload| && tx.cacheFin.Some?;
      SendRawReports(Ticked(tx, env), Ticked(tx, env).cache.sequence, payload, fin, env);
    }
  }

  /**
   * Whatever a region sends, every frame acknowledges what the state acknowledges and reports its
   * window, or 0 below the silly-window threshold.
   */
  lemma FramesReport(tx: Tx, e: Event, env: Env)
    requires tx.cache.Ok() && 0 < env.mss
    ensures
      var out := React(tx, e, env);
      var shown := if out.tx.window < Min(32767, env.localMtu) then 0 else out.tx.window;
      Reports(out.frames, out.tx.acknowledgement, shown)
  {
    match e {
      case Forward(payload) => SendTcpAckReports(tx.(queue := tx.queue + payload), env);
      case Close => SendTcpAckReports(tx.(queueFin := true), env);
      case SendMore => SendTcpAckReports(tx, env);
      case Tick => TickReports(tx, env);
      case FastRetransmit => SendRawReports(tx, tx.cache.sequence, tx.cache.bytes, tx.cacheFin.Some?, env);
      case SelectiveRetransmit(blocks) =>
        SendRangesReport(tx, SubtractAll([(tx.cache.sequence, tx.cache.RecvNext())], blocks), env);
      case Acknowledge(_, _) =>
      case SetSacks(_) =>
      case Reply(_, _) =>
    }
  }

  // ---------------------------------------------------------------------------------------------
  // Sending from the queue
  // ---------------------------------------------------------------------------------------------

  /** What a send that lets `n` bytes go does to the state and puts on the wire, the FIN aside. */
  ghost predicate Sends(tx: Tx, env: Env, out: Out, n: nat)
    requires tx.WellSized()
  {
    && n <= |tx.queue| && n <= tx.cache.Remaining()
    && out.ok && out.tx.queue == tx.queue[n..]
    && out.tx.cache.bytes == tx.cache.bytes + tx.queue[..n] && out.tx.cache.sequence == tx.cache.sequence
    && (forall p :: |tx.cache.bytes| <= p < |tx.cache.bytes| + n ==>
          out.tx.cache.TimerAt(p) == Some(Timer(env.now, tx.rto)))
    && (forall p :: 0 <= p < |tx.cache.bytes| ==> out.tx.cache.TimerAt(p) == tx.cache.TimerAt(p))
    && Carries(out.frames) == tx.queue[..n]
    && (n > 0 ==> exists fin :: Consecutive(out.frames, tx.sequence, fin, env.mss))
  }

  /**
   * Flow control from both sides. A send takes the first bytes of the queue, puts exactly these on
   * the wire from the next sequence number on and times them with the current timeout. With bytes
   * in flight it takes at least a full segment or nothing; and any larger amount `m` that the
   * queue, the window and 16 bits would allow is less than a full segment while bytes are in flight.
   */
  lemma SendTakes(tx: Tx, env: Env, m: nat) returns (n: nat)
    requires tx.cache.Ok() && 0 < env.mss && tx.cacheSyn.None? && tx.sendWindow <= tx.cache.capacity
    ensures Sends(tx, env, tx.SendTcpAck(env), n)
    ensures n > 0 ==> |tx.cache.bytes| + n <= tx.sendWindow && n <= U16_MAX
    ensures n == 0 || tx.cache.bytes == [] || n >= env.mss
    ensures n < m <= |tx.queue| && m <= U16_MAX && |tx.cache.bytes| + m <= tx.sendWindow ==>
              tx.cache.bytes != [] && m < env.mss
  {
    n := if tx.sendWindow > 0 then tx.Allowance(env.mss) else 0;
    SendsAmount(tx, env, n);
  }

  lemma SendsAmount(tx: Tx, env: Env, n: nat)
    requires tx.cache.Ok() && 0 < env.mss && tx.cacheSyn.None? && tx.sendWindow <= tx.cache.capacity
    requires n == if tx.sendWindow > 0 then tx.Allowance(env.mss) else 0
    ensures Sends(tx, env, tx.SendTcpAck(env), n)
    ensures
      var out, sent := tx.SendTcpAck(env), if n > 0 then tx.SendQueued(n, env) else tx.SendQueuedFin(env);
      out.tx == sent.tx && out.frames == sent.frames
  {
    var out := tx.SendTcpAck(env);
    if n > 0 {
      SendQueuedTakes(tx, n, env);
      assert out.frames == tx.SendQueued(n, env).frames + [] == tx.SendQueued(n, env).frames;
    } else {
      assert tx.queue[0..] == tx.queue;
      assert out.frames == [] + tx.SendQueuedFin(env).frames == tx.SendQueuedFin(env).frames;
      FinCarriesNothing(tx, env);
    }
  }

  lemma FinCarriesNothing(tx: Tx, env: Env)
    ensures Carries(tx.SendQueuedFin(env).frames) == []
  {
    var frames := tx.SendQueuedFin(env).frames;
    if frames != [] {
      assert frames[1..] == [] && !frames[0].Data?;
      var none: seq<byte> := [];
      assert Payloads(frames) == [none];
      assert Flatten([none]) == none + Flatten<byte>([]);
    }
  }

  lemma SendQueuedTakes(tx: Tx, n: nat, env: Env)
    requires tx.cache.Ok() && 0 < env.mss && 0 < n <= |tx.queue| && n <= tx.cache.Remaining()
    ensures Sends(tx, env, tx.SendQueued(n, env), n)
    ensures
      var out := tx.SendQueued(n, env);
      var rides := n == |tx.queue| && tx.queueFin;
      && out.tx.cache.bytes != [] && out.frames != []
      && Consecutive(out.frames, tx.sequence, rides, env.mss)
      && (rides ==> !out.tx.queueFin && out.tx.cacheFin == Some(Timer(env.now, tx.rto)))
      && (!rides ==> out.tx.queueFin == tx.queueFin && out.tx.cacheFin == tx.cacheFin)
  {
    var moved, rides := Moved(tx, n, env), n == |tx.queue| && tx.queueFin;
    assert tx.queue[n..] == [] <==> n == |tx.queue|;
    AppendKeepsOk(tx.cache, tx.queue[..n], tx.rto, env.now);
    SegmentsCarry(moved, tx.sequence, tx.queue[..n], false, env);
    SegmentsCarry(moved.AppendCacheFin(env.now), tx.sequence, tx.queue[..n], true, env);
  }

  /**
   * When the FIN leaves: exactly if it is queued and either the send empties the queue, then every
   * segment carries it, or there is nothing in flight and the send takes nothing, then it goes
   * alone. It is timed from then on; otherwise it stays queued and no frame carries one.
   */
  lemma FinLeavesIff(tx: Tx, env: Env) returns (n: nat)
    requires tx.cache.Ok() && 0 < env.mss && tx.cacheSyn.None? && tx.sendWindow <= tx.cache.capacity
    requires tx.cacheFin.None?
    ensures Sends(tx, env, tx.SendTcpAck(env), n)
    ensures
      var out := tx.SendTcpAck(env);
      var leaves := tx.queueFin && (0 < n == |tx.queue| || (n == 0 && tx.cache.bytes == []));
      && (leaves ==> out.tx.cacheFin == Some(Timer(env.now, tx.rto)) && !out.tx.queueFin)
      && (leaves && n > 0 ==> Consecutive(out.frames, tx.sequence, true, env.mss))
      && (leaves && n == 0 ==> out.frames == [PureFin(tx.sequence, tx.acknowledgement, tx.ReportedWindow(env))])
      && (!leaves ==> out.tx.cacheFin.None? && out.tx.queueFin == tx.queueFin)
      && (!leaves ==> Consecutive(out.frames, tx.sequence, false, env.mss))
  {
    n := if tx.sendWindow > 0 then tx.Allowance(env.mss) else 0;
    SendsAmount(tx, env, n);
    if n > 0 {
      SendQueuedTakes(tx, n, env);
    }
  }

  /** While the SYN is unacknowledged, a send sends the SYN again and nothing else. */
  lemma SynAgain(tx: Tx, env: Env)
    requires tx.WellSized() && 0 < env.mss && tx.cacheSyn.Some?
    ensures tx.SendTcpAck(env) ==
      Out(tx, [SynAck(tx.sequence, tx.acknowledgement, tx.ReportedWindow(env))], true)
  {
  }

  // ---------------------------------------------------------------------------------------------
  // Retransmission
  // ---------------------------------------------------------------------------------------------

  /** A fast retransmission sends all bytes in flight again, from their number on, and the FIN with them. */
  lemma FastResends(tx: Tx, env: Env)
    requires tx.WellSized() && 0 < env.mss
    ensures
      var out := tx.RetransmitAll(env);
      && out.ok && out.tx == tx.(sequence := out.tx.sequence)
      && Carries(out.frames) == tx.cache.bytes
      && Consecutive(out.frames, tx.cache.sequence, tx.cacheFin.Some?, env.mss)
  {
    SegmentsCarry(tx, tx.cache.sequence, tx.cache.bytes, tx.cacheFin.Some?, env);
  }

  /** The timeout after a timeout. */
  function Doubled(rto: nat): nat { Min(2 * rto, 60000) }

  /**
   * With nothing in flight but a FIN: it is sent again exactly when its time is over, then the
   * timeout doubles and times it anew; before that nothing is sent and only the clocks change.
   */
  lemma TickResendsFin(tx: Tx, env: Env)
    requires tx.cache.Ok() && 0 < env.mss && tx.cache.bytes == [] && MIN_RTO <= tx.rto <= MAX_RTO
    ensures
      var out := tx.Tick(env);
      var due := tx.cacheFin.Some? && env.now > tx.cacheFin.value.start + tx.cacheFin.value.timeout;
      && out.ok && out.tx.cache.bytes == []
      && (due ==>
            && out.frames == [PureFin(tx.sequence, tx.acknowledgement, tx.ReportedWindow(env))]
            && out.tx == tx.(cache := out.tx.cache, rto := Doubled(tx.rto), cacheFinRetrans := true,
                             cacheFin := Some(Timer(env.now, Doubled(tx.rto)))))
      && (!due ==> out.frames == [] && out.tx == tx.(cache := out.tx.cache))
  {
  }

  /**
   * With bytes in flight: the bytes before the first clock that is not over (all, if all are over)
   * are sent again, from the first number on. The FIN goes with them exactly if they are all bytes;
   * it is then timed anew. The timeout doubles in any case.
   */
  lemma TickResendsData(tx: Tx, env: Env, live: nat)
    requires tx.cache.Ok() && 0 < env.mss && tx.cache.bytes != [] && MIN_RTO <= tx.rto <= MAX_RTO
    requires live <= |tx.cache.clocks|
    requires forall i :: 0 <= i < live ==>
               env.now > tx.cache.clocks[i].timer.start + tx.cache.clocks[i].timer.timeout
    requires live < |tx.cache.clocks| ==>
               env.now <= tx.cache.clocks[live].timer.start + tx.cache.clocks[live].timer.timeout
    ensures
      var out := tx.Tick(env);
      var n := if live < |tx.cache.clocks| then Sub(tx.cache.clocks[live].start, tx.cache.sequence)
               else |tx.cache.bytes|;
      var fin := n == |tx.cache.bytes| && tx.cacheFin.Some?;
      && n <= |tx.cache.bytes| && out.ok
      && Carries(out.frames) == tx.cache.bytes[..n] && Consecutive(out.frames, tx.cache.sequence, fin, env.mss)
      && out.tx.cache.bytes == tx.cache.bytes && out.tx.cache.sequence == tx.cache.sequence
      && out.tx.queue == tx.queue && out.tx.rto == Doubled(tx.rto)
      && out.tx.cacheFin == if fin then Some(Timer(env.now, Doubled(tx.rto))) else tx.cacheFin
  {
    FirstLiveIs(tx.cache.clocks, env.now, live);
    var payload := TickPayload(tx, env);
    var t := Ticked(tx, env);
    TickSends(tx, env);
    var n := if live < |tx.cache.clocks| then tx.cache.Offset(tx.cache.clocks[live]) else |tx.cache.bytes|;
    assert payload == tx.cache.bytes[..n];
    SegmentsCarry(t, t.cache.sequence, payload, n == |tx.cache.bytes| && tx.cacheFin.Some?, env);
  }
}
