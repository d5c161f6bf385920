/**
 * Exact statements about single operations of the sending side: flow control, round-trip
 * estimation, and where the treatment of the FIN departs from what one would expect.
 */
module SenderFacts {
  import opened Basics
  import opened SequenceNumbers
  import opened SendQueue
  import opened Transmit
  import opened SenderSteps
  import opened FinNumbers
  import opened SenderRun

  // ---------------------------------------------------------------------------------------------
  // Flow control
  // ---------------------------------------------------------------------------------------------

  /**
   * A send never takes unacknowledged bytes past the send window, and moves bytes from the queue
   * to the cache without losing any exactly when they fit; they always do while the send window is
   * at most the cache's capacity.
   */
  lemma SendRespectsWindow(tx: Tx, env: Env)
    requires tx.WellSized() && 0 < env.mss
    ensures
      var out := tx.SendTcpAck(env);
      && |out.tx.cache.bytes| <= Max(|tx.cache.bytes|, tx.sendWindow)
      && (out.ok <==> out.tx.cache.bytes + out.tx.queue == tx.cache.bytes + tx.queue)
      && (tx.sendWindow <= tx.cache.capacity ==> out.ok)
  {
    var size := tx.Allowance(env.mss);
    if tx.cacheSyn.None? && tx.sendWindow > 0 && size > 0 {
      if size <= tx.cache.Remaining() {
        assert (tx.cache.bytes + tx.queue[..size]) + tx.queue[size..] == tx.cache.bytes + tx.queue;
      } else {
        assert |tx.cache.bytes + tx.queue[size..]| < |tx.cache.bytes + tx.queue|;
      }
    }
  }

  /** The windows a peer can report fit a cache made for the same scale; scales up to 8 stay below one window. */
  lemma WindowFitsCache(window: nat, scale: nat, initialScale: nat)
    requires window <= U16_MAX && initialScale <= scale
    ensures window * Power2(scale) <= RECV_WINDOW * Power2(scale)
    ensures window * Power2(initialScale) <= RECV_WINDOW * Power2(scale)
    ensures RECV_WINDOW * Power2(scale) < MAX_WINDOW <==> scale <= 8
  {
    Power2Grows(initialScale, scale);
    MulGrows(window, Power2(initialScale), RECV_WINDOW, Power2(scale));
    MulGrows(window, Power2(scale), RECV_WINDOW, Power2(scale));
    Power2Of8And9();
    if scale <= 8 {
      Power2Grows(scale, 8);
      MulGrows(RECV_WINDOW, Power2(scale), RECV_WINDOW, 256);
    } else {
      Power2Grows(9, scale);
      MulGrows(RECV_WINDOW, 512, RECV_WINDOW, Power2(scale));
    }
  }

  lemma MulGrows(a: nat, b: nat, c: nat, d: nat)
    requires a <= c && b <= d
    ensures a * b <= c * d
  {
    assert a * b <= c * b;
    assert c * b <= c * d;
  }

  lemma Power2Of8And9()
    ensures Power2(8) == 256 && Power2(9) == 512
  {
    assert Power2(4) == 16;
  }

  function Power2(n: nat): (p: nat)
    ensures p > 0
  {
    if n == 0 then 1 else 2 * Power2(n - 1)
  }

  lemma {:induction false} Power2Grows(a: nat, b: nat)
    requires a <= b
    ensures Power2(a) <= Power2(b)
    decreases b
  {
    if a < b {
      Power2Grows(a, b - 1);
    }
  }

  // ---------------------------------------------------------------------------------------------
  // FIN
  // ---------------------------------------------------------------------------------------------

  /** A FIN leaves while bytes are still queued if and only if the send window is 0 with an empty cache. */
  lemma FinOvertakesIff(tx: Tx, env: Env)
    requires tx.WellSized() && tx.sendWindow <= tx.cache.capacity && tx.cacheFin.None? && 0 < env.mss
    ensures
      var out := tx.SendTcpAck(env).tx;
      out.cacheFin.Some? && out.queue != [] <==> FinOvertakes(tx)
  {
    SendRespectsWindow(tx, env);
  }

  /** And the guard is reached: bytes are forwarded, the SYN is acknowledged with window 0, and the stream closes. */
  lemma FinOvertakesReached(isn: u32, s0: Sender, payload: seq<byte>, env: Env)
    requires Inv(isn, s0) && s0.tx.cacheSyn.Some? && !s0.closed && s0.tx.queue == [] && payload != [] && 0 < env.mss
    ensures
      var events := [(Forward(payload), env), (Event.Acknowledge(SeqAt(isn, 1), 0), env)];
      && AllowedRun(isn, s0, events)
      && var tx := Run(isn, s0, events).tx;
         && tx.WellSized() && FinOvertakes(tx.(queueFin := true))
         && tx.Close(env).tx.cacheFin.Some? && tx.Close(env).tx.queue == payload
  {
    var e1, e2 := Forward(payload), Event.Acknowledge(SeqAt(isn, 1), 0);
    StepKeeps(isn, s0, e1, env);
    var s1 := Step(s0, e1, env);
    assert s1.tx == s0.tx.(queue := payload) by {
      assert [] + payload == payload;
    }
    assert AckAt(isn, s1, SeqAt(isn, 1), 1);
    StepKeeps(isn, s1, e2, env);
    TwoSteps(isn, s0, (e1, env), (e2, env));
    ClosedAtZero(isn, s1, env);
  }

  lemma TwoSteps(isn: u32, s: Sender, a: (Event, Env), b: (Event, Env))
    requires Inv(isn, s) && 0 < a.1.mss && Allowed(isn, s, a.0) && Inv(isn, Step(s, a.0, a.1))
    requires
      var s1 := Step(s, a.0, a.1);
      0 < b.1.mss && Allowed(isn, s1, b.0) && Inv(isn, Step(s1, b.0, b.1))
    ensures AllowedRun(isn, s, [a, b]) && Run(isn, s, [a, b]) == Step(Step(s, a.0, a.1), b.0, b.1)
  {
    var s1 := Step(s, a.0, a.1);
    var s2 := Step(s1, b.0, b.1);
    assert [b][1..] == [] && [a, b][1..] == [b];
    assert AllowedRun(isn, s2, []);
    assert AllowedRun(isn, s1, [b]) && Run(isn, s1, [b]) == s2;
  }

  lemma ClosedAtZero(isn: u32, s: Sender, env: Env)
    requires Inv(isn, s) && s.tx.cacheSyn.Some? && s.tx.queue != [] && 0 < env.mss
    ensures
      var tx := Step(s, Event.Acknowledge(SeqAt(isn, 1), 0), env).tx;
      && tx.WellSized() && FinOvertakes(tx.(queueFin := true))
      && tx.Close(env).tx.cacheFin.Some? && tx.Close(env).tx.queue == s.tx.queue
  {
    SynDroppedIff(isn, s, 1, env.now);
  }

  // ---------------------------------------------------------------------------------------------
  // SYN
  // ---------------------------------------------------------------------------------------------

  /**
   * The SYN counts as acknowledged by every position up to one window ahead, also by its own; the
   * cache then starts at the position acknowledged, so that it agrees with the next number to send
   * if and only if that is the position after the SYN.
   */
  lemma SynDroppedIff(isn: u32, s: Sender, t: nat, now: nat)
    requires Inv(isn, s) && s.tx.cacheSyn.Some? && t < U32_MAX
    ensures
      var tx := s.tx.Acknowledge(SeqAt(isn, t), now);
      && (tx.cacheSyn.None? <==> t <= MAX_WINDOW)
      && (tx.cacheSyn.None? ==>
            && tx.sequence == SeqAt(isn, 1) && tx.cache.bytes == [] && tx.queue == s.tx.queue
            && (tx.sequence == tx.cache.RecvNext() <==> t == 1))
  {
    Distance(isn, 0, t);
    Distance(isn, 1, t);
    SeqAtStep(isn, 0, 1);
  }

  /** With a FIN, every segment carries it: only the last does exactly when there is one segment. */
  lemma FinOnLastOnlyIff(tx: Tx, from: u32, payload: seq<byte>, env: Env)
    requires 0 < env.mss && 0 < |payload| <= U32_MAX
    ensures
      var segments := tx.Segments(from, payload, true, env);
      (forall i :: 0 <= i < |segments| - 1 ==> !segments[i].Data? || !segments[i].fin) <==> |payload| <= env.mss
  {
    var segments := tx.Segments(from, payload, true, env);
    SegmentsRejoin(tx, from, payload, true, env);
    if |payload| <= env.mss {
      assert payload[|payload|..] == [];
    } else {
      var rest := tx.Segments(Add(from, env.mss), payload[env.mss..], true, env);
      assert rest != [] && segments == [segments[0]] + rest;
      assert segments[0].fin;
    }
  }

  /** Close, then an acknowledged FIN, then a forward: the payload is accepted again. */
  lemma ForwardRefusedIff(tx: Tx, payload: seq<byte>, env: Env)
    requires tx.WellSized() && tx.sendWindow <= tx.cache.capacity && 0 < env.mss
    ensures tx.Forward(payload, env).ok <==> tx.cacheFin.None? && !tx.queueFin
    ensures !tx.Forward(payload, env).ok ==> tx.Forward(payload, env).tx == tx
  {
    SendRespectsWindow(tx.(queue := tx.queue + payload), env);
  }

  /**
   * A FIN is dropped by every number from the end of the data on, also by the one before its own:
   * it counts as acknowledged although the peer has not acknowledged it.
   */
  lemma FinDroppedIff(isn: u32, s: Sender, t: nat, now: nat)
    requires Inv(isn, s) && s.tx.cacheFin.Some? && AckAt(isn, s, SeqAt(isn, t), t)
    ensures s.tx.Acknowledge(SeqAt(isn, t), now).cacheFin.None? <==> 1 + |s.stream| <= t
  {
    assert |s.tx.cache.bytes| == |s.stream| - s.acked;
    AcksFinIff(isn, s.tx.cache, 1 + s.acked, t, now);
    AcknowledgeDropsFin(s.tx, SeqAt(isn, t), now);
  }

  /**
   * The FIN that a send lets go is counted once, so that after its acknowledgement the number is
   * the one the peer expects, if and only if it leaves alone or the data end at number 2^32 - 1;
   * otherwise it is counted when sent and again when acknowledged.
   */
  lemma FinCountedOnceIff(isn: u32, s: Sender, env: Env, now: nat)
    requires Inv(isn, s) && s.tx.cacheSyn.None? && Established(isn, s) && s.tx.queueFin && 0 < env.mss
    requires !FinOvertakes(s.tx) && s.tx.SendTcpAck(env).tx.cacheFin.Some?
    ensures
      var acknowledged := s.tx.SendTcpAck(env).tx.Acknowledge(SeqAt(isn, 2 + |s.stream|), now);
      acknowledged.sequence == SeqAt(isn, 2 + |s.stream|) <==> s.tx.queue == [] || SeqAt(isn, 1 + |s.stream|) == U32_MAX
  {
    var s1 := After(s, s.tx.SendTcpAck(env));
    SendTcpAckKeeps(isn, s, env);
    SendTcpAckFin(isn, s, env);
    SendTimes(s, env);
    SendCloses(s, env);
    InFlightCountedOnceIff(isn, s1, now);
  }

  /** The same for a FIN in flight in any reachable state, whatever happened since it left. */
  lemma InFlightCountedOnceIff(isn: u32, s: Sender, now: nat)
    requires Inv(isn, s) && s.tx.cacheFin.Some?
    ensures
      var acknowledged := s.tx.Acknowledge(SeqAt(isn, 2 + |s.stream|), now);
      acknowledged.sequence == SeqAt(isn, 2 + |s.stream|) <==> !Rode(s.log) || SeqAt(isn, 1 + |s.stream|) == U32_MAX
  {
    var end := 1 + |s.stream|;
    assert |s.tx.cache.bytes| == |s.stream| - s.acked;
    FinDroppedIff(isn, s, end + 1, now);
    DroppingAddsOne(s.tx, SeqAt(isn, end + 1), now);
    SeqAtStep(isn, FinAt(isn, s), 1);
    Distance(isn, end + 1, end + 2);
  }

  lemma DroppingAddsOne(tx: Tx, ack: u32, now: nat)
    requires tx.WellSized() && tx.cacheSyn.None? && tx.cacheFin.Some? && tx.Acknowledge(ack, now).cacheFin.None?
    ensures tx.Acknowledge(ack, now).sequence == Add(tx.sequence, 1)
  {
  }

  // ---------------------------------------------------------------------------------------------
  // Round-trip estimation
  // ---------------------------------------------------------------------------------------------

  /**
   * The smoothed round-trip time is the one of section 2 of RFC 6298, in the program's integer
   * arithmetic, if and only if the previous variation and the previous smoothed time agree up to
   * their last three bits: the code takes the variation where the standard takes the time.
   */
  lemma SmoothedIff(tx: Tx, rtt: nat)
    requires tx.srtt.Some? && tx.rttvar.Some? && tx.srtt.value <= U64_MAX && tx.rttvar.value <= U64_MAX
             && rtt <= U64_MAX
    ensures tx.UpdateRto(rtt).srtt == Some(tx.srtt.value / 8 * 7 + rtt / 8) <==>
            tx.rttvar.value / 8 == tx.srtt.value / 8
  {
  }

  /** The first sample (section 2.2 of RFC 6298): SRTT is the sample and RTTVAR half of it. */
  lemma FirstSample(tx: Tx, rtt: nat)
    requires tx.srtt.None? && rtt <= U64_MAX
    ensures tx.UpdateRto(rtt).srtt == Some(rtt) && tx.UpdateRto(rtt).rttvar == Some(rtt / 2)
  {
  }

  /**
   * The variation of a later sample: the code keeps seven eighths of the previous one where section
   * 2.3 of RFC 6298 keeps three quarters; in its integer arithmetic they agree exactly for a previous
   * variation below 4 or from 28 to 31.
   */
  lemma VariationIff(tx: Tx, rtt: nat)
    requires tx.srtt.Some? && tx.rttvar.Some? && tx.srtt.value <= U64_MAX / 2 && tx.rttvar.value <= U64_MAX / 2
    requires rtt <= U64_MAX / 2
    ensures
      var distance := if rtt <= tx.srtt.value then tx.srtt.value - rtt else rtt - tx.srtt.value;
      tx.UpdateRto(rtt).rttvar == Some(tx.rttvar.value / 4 * 3 + distance / 4) <==>
        tx.rttvar.value < 4 || 28 <= tx.rttvar.value < 32
  {
  }

  /** The timeout is SRTT and four times RTTVAR, of the new estimates, between 1 and 60 seconds. */
  lemma TimeoutOfEstimates(tx: Tx, rtt: nat)
    ensures
      var t := tx.UpdateRto(rtt);
      && t.srtt.Some? && t.rttvar.Some?
      && t.rto == Min(60000, Max(1000, t.srtt.value + Max(1, 4 * t.rttvar.value)))
      && t == tx.(srtt := t.srtt, rttvar := t.rttvar, rto := t.rto)
  {
  }

  /**
   * What an acknowledgement does to the estimates while neither SYN nor FIN is in flight: it updates
   * them with the time of the first clock that is not over, if `SampleIff` says it gives a sample,
   * and leaves them alone otherwise.
   */
  lemma AcknowledgeEstimates(tx: Tx, ack: u32, now: nat, i: nat)
    requires tx.cache.Ok() && tx.cacheSyn.None? && tx.cacheFin.None? && i <= |tx.cache.clocks|
    requires forall j :: 0 <= j < i ==> tx.cache.clocks[j].timer.Expired(now)
    requires i < |tx.cache.clocks| ==> !tx.cache.clocks[i].timer.Expired(now)
    ensures
      var q, t := tx.cache, tx.Acknowledge(ack, now);
      if Ahead(ack, q.sequence) && !Marked(q, ack) && i < |q.clocks| && EndOf(q, i) <= Sub(ack, q.sequence) then
        var u := tx.UpdateRto(q.clocks[i].timer.Elapsed(now));
        t.srtt == u.srtt && t.rttvar == u.rttvar && t.rto == u.rto
      else t.srtt == tx.srtt && t.rttvar == tx.rttvar && t.rto == tx.rto
  {
    SampleIff(tx.cache, ack, now, i);
    SampleUpdates(tx, ack, now, tx.cache.InvalidateTo(ack, now).1);
  }

  lemma SampleUpdates(tx: Tx, ack: u32, now: nat, sample: Option<nat>)
    requires tx.WellSized() && tx.cacheSyn.None? && tx.cacheFin.None?
    requires sample == tx.cache.InvalidateTo(ack, now).1
    ensures
      var t, u := tx.Acknowledge(ack, now), if sample.Some? then tx.UpdateRto(sample.value) else tx;
      t.srtt == u.srtt && t.rttvar == u.rttvar && t.rto == u.rto
  {
  }

  /** The SYN gives the first sample: the time since it was sent. */
  lemma SynSampled(isn: u32, s: Sender, t: nat, now: nat)
    requires Inv(isn, s) && s.tx.cacheSyn.Some? && s.tx.srtt.None? && t <= MAX_WINDOW
    requires s.tx.cacheSyn.value <= now <= U64_MAX
    ensures s.tx.Acknowledge(SeqAt(isn, t), now).srtt == Some(now - s.tx.cacheSyn.value)
  {
    Distance(isn, 0, t);
  }

  /** After a timeout the timeout doubles, up to 60 seconds. */
  lemma TimeoutDoubles(tx: Tx)
    requires MIN_RTO <= tx.rto <= MAX_RTO
    ensures tx.DoubleRto().rto == Min(2 * tx.rto, 60000)
  {
  }

  /** Every new timeout is clamped, whatever the sample; doubling never lowers a clamped one. */
  lemma TimeoutClamped(tx: Tx, rtt: nat)
    ensures MIN_RTO <= tx.UpdateRto(rtt).rto <= MAX_RTO && MIN_RTO <= tx.DoubleRto().rto <= MAX_RTO
    ensures MIN_RTO <= tx.rto <= MAX_RTO ==>
              tx.rto <= tx.DoubleRto().rto && (tx.rto == tx.DoubleRto().rto <==> tx.rto == MAX_RTO)
  {
  }

  /** A timeout restarts the clocks with the largest timeout, whatever the current one is. */
  lemma TickRestartsAtMax(tx: Tx, env: Env)
    requires tx.cache.Ok() && 0 < env.mss
    ensures tx.Tick(env).tx.cache == tx.cache.TimedOut(MAX_RTO, env.now).0
  {
    assert Max(MAX_RTO, Min(MIN_RTO, SaturatingMul(tx.rto, 2))) == MAX_RTO;
  }
}
