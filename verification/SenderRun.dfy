/**
 * Whole runs of the sending side: any interleaving of forwards, a close, ticks, acknowledgements,
 * fast and selective retransmissions and replies.
 */
module SenderRun {
  import opened Basics
  import opened SequenceNumbers
  import opened SendQueue
  import opened Transmit
  import opened SenderSteps
  import opened FinNumbers

  // ---------------------------------------------------------------------------------------------
  // Timers
  // ---------------------------------------------------------------------------------------------

  /** The timeout stays in its clamp, and a FIN in flight counts as retransmitted from the start. */
  ghost predicate TimerInv(s: Sender) {
    && MIN_RTO <= s.tx.rto <= MAX_RTO
    && (!s.finished || s.tx.cacheFin.Some? ==> s.tx.cacheFinRetrans)
  }

  lemma SendTimes(s: Sender, env: Env)
    requires s.tx.WellSized() && TimerInv(s) && 0 < env.mss && (s.finished ==> !s.tx.queueFin)
    ensures TimerInv(After(s, s.tx.SendTcpAck(env)))
  {
  }

  lemma TickTimes(s: Sender, env: Env)
    requires s.tx.cache.Ok() && TimerInv(s) && 0 < env.mss
    ensures TimerInv(After(s, s.tx.Tick(env)))
  {
  }

  lemma AcknowledgeTimes(s: Sender, ack: u32, now: nat)
    requires s.tx.WellSized() && TimerInv(s) && (s.tx.cacheFin.Some? ==> s.finished)
    ensures TimerInv(s.(tx := s.tx.Acknowledge(ack, now)))
  {
  }

  lemma TimersKeep(isn: u32, s: Sender, e: Event, env: Env)
    requires Core(isn, s) && TimerInv(s) && 0 < env.mss && Allowed(isn, s, e)
    ensures TimerInv(Step(s, e, env))
  {
    match e {
      case Forward(payload) => SendTimes(s.(tx := s.tx.(queue := s.tx.queue + payload)), env);
      case Close => SendTimes(s.(tx := s.tx.(queueFin := true)), env);
      case SendMore => SendTimes(s, env);
      case Tick => TickTimes(s, env);
      case Acknowledge(ack, _) => AcknowledgeTimes(s, ack, env.now);
      case FastRetransmit =>
      case SelectiveRetransmit(_) =>
      case SetSacks(_) =>
      case Reply(_, _) =>
    }
  }

  // ---------------------------------------------------------------------------------------------
  // Closing
  // ---------------------------------------------------------------------------------------------

  /** Once the stream has closed, the FIN is queued until it leaves. */
  ghost predicate CloseInv(s: Sender) {
    s.closed && !s.finished ==> s.tx.queueFin
  }

  lemma SendCloses(s: Sender, env: Env)
    requires s.tx.WellSized() && CloseInv(s) && 0 < env.mss
    ensures CloseInv(After(s, s.tx.SendTcpAck(env)))
  {
  }

  lemma CloseKept(isn: u32, s: Sender, e: Event, env: Env)
    requires Core(isn, s) && CloseInv(s) && 0 < env.mss && Allowed(isn, s, e)
    ensures CloseInv(Step(s, e, env))
  {
    match e {
      case Forward(payload) => SendCloses(s.(tx := s.tx.(queue := s.tx.queue + payload)), env);
      case Close => SendCloses(s.(tx := s.tx.(queueFin := true), closed := true), env);
      case SendMore => SendCloses(s, env);
      case Tick =>
      case Acknowledge(_, _) =>
      case FastRetransmit =>
      case SelectiveRetransmit(_) =>
      case SetSacks(_) =>
      case Reply(_, _) =>
    }
  }

  // ---------------------------------------------------------------------------------------------
  // The invariant
  // ---------------------------------------------------------------------------------------------

  ghost predicate Inv(isn: u32, s: Sender) {
    Core(isn, s) && FinInv(isn, s) && TimerInv(s) && CloseInv(s)
  }

  /** Every region under the mutex keeps the invariant. */
  lemma StepKeeps(isn: u32, s: Sender, e: Event, env: Env)
    requires Inv(isn, s) && 0 < env.mss && Allowed(isn, s, e)
    ensures Inv(isn, Step(s, e, env))
  {
    CoreKeeps(isn, s, e, env);
    FinKeeps(isn, s, e, env);
    TimersKeep(isn, s, e, env);
    CloseKept(isn, s, e, env);
  }

  // ---------------------------------------------------------------------------------------------
  // Runs
  // ---------------------------------------------------------------------------------------------

  /** A run whose every event the environment may cause in the state it meets. */
  ghost predicate AllowedRun(isn: u32, s: Sender, events: seq<(Event, Env)>)
    requires Inv(isn, s)
    decreases |events|
  {
    events == [] ||
    (&& 0 < events[0].1.mss && Allowed(isn, s, events[0].0)
     && (StepKeeps(isn, s, events[0].0, events[0].1);
         AllowedRun(isn, Step(s, events[0].0, events[0].1), events[1..])))
  }

  ghost function Run(isn: u32, s: Sender, events: seq<(Event, Env)>): Sender
    requires Inv(isn, s) && AllowedRun(isn, s, events)
    decreases |events|
  {
    if events == [] then s
    else
      StepKeeps(isn, s, events[0].0, events[0].1);
      Run(isn, Step(s, events[0].0, events[0].1), events[1..])
  }

  lemma {:induction false} RunKeeps(isn: u32, s: Sender, events: seq<(Event, Env)>)
    requires Inv(isn, s) && AllowedRun(isn, s, events)
    ensures Inv(isn, Run(isn, s, events))
    decreases |events|
  {
    if events != [] {
      StepKeeps(isn, s, events[0].0, events[0].1);
      RunKeeps(isn, Step(s, events[0].0, events[0].1), events[1..]);
    }
  }

  /** A connection right after `open` has sent its SYN. */
  function Opened(isn: u32, acknowledgement: u32, sendWindow: nat, capacity: nat, now: nat): (s: Sender)
    ensures Inv(isn, s) <==> sendWindow <= capacity < MAX_WINDOW
  {
    Sender(
      Tx(sendWindow, isn, acknowledgement, RECV_WINDOW, None, QueueState(capacity, isn, [], [], None),
         Some(now), None, true, [], false, INITIAL_RTO, None, None),
      [], 0, [], false, false)
  }

  /**
   * Conservation over every run from a fresh connection, whatever the interleaving: the forwarded
   * bytes are exactly the acknowledged ones, then the cache, then the queue; once the SYN is
   * acknowledged and until a FIN leaves, the next sequence number is the end of the cache; once a
   * FIN has left, nothing is queued behind it; no unacknowledged byte exceeds the cache; and every
   * data frame ever sent, first time or again, is a slice of the forwarded stream under the number
   * of its position.
   */
  lemma RunConserves(isn: u32, acknowledgement: u32, sendWindow: nat, capacity: nat, now: nat,
                     events: seq<(Event, Env)>)
    requires sendWindow <= capacity < MAX_WINDOW
    requires AllowedRun(isn, Opened(isn, acknowledgement, sendWindow, capacity, now), events)
    ensures
      var s := Run(isn, Opened(isn, acknowledgement, sendWindow, capacity, now), events);
      && s.acked <= |s.stream|
      && s.stream == s.stream[..s.acked] + s.tx.cache.bytes + s.tx.queue
      && s.tx.cache.Ok() && s.tx.sendWindow <= s.tx.cache.capacity
      && (s.tx.cacheSyn.None? && !s.finished ==> s.tx.sequence == s.tx.cache.RecvNext())
      && (s.finished ==> s.closed && s.tx.queue == [])
      && (s.closed && !s.finished ==> s.tx.queueFin)
      && AllSlices(isn, s.stream, s.log)
  {
    var s0 := Opened(isn, acknowledgement, sendWindow, capacity, now);
    RunKeeps(isn, s0, events);
    InvMeans(isn, Run(isn, s0, events));
  }

  lemma InvMeans(isn: u32, s: Sender)
    requires Inv(isn, s)
    ensures s.acked <= |s.stream| && s.stream == s.stream[..s.acked] + s.tx.cache.bytes + s.tx.queue
    ensures s.tx.cacheSyn.None? && !s.finished ==> s.tx.sequence == s.tx.cache.RecvNext()
    ensures s.finished ==> s.closed && s.tx.queue == []
  {
    assert s.stream == s.stream[..s.acked] + s.stream[s.acked..];
    if s.tx.cacheSyn.None? && !s.finished {
      SeqAtStep(isn, 1 + s.acked, |s.tx.cache.bytes|);
    }
  }

  /**
   * The FIN's number over every run. Once the FIN has been dropped, the sequence number is the one
   * after it if and only if it left alone or the data end at number 2^32 - 1; and a FIN sent alone,
   * first time or again, carries the number after the data under the same condition.
   */
  lemma RunCountsFin(isn: u32, s0: Sender, events: seq<(Event, Env)>)
    requires Inv(isn, s0) && AllowedRun(isn, s0, events)
    ensures
      var s := Run(isn, s0, events);
      var right := !Rode(s.log) || SeqAt(isn, 1 + |s.stream|) == U32_MAX;
      && (s.finished && s.tx.cacheFin.None? ==> (s.tx.sequence == SeqAt(isn, 2 + |s.stream|) <==> right))
      && (s.finished && s.tx.cacheFin.Some? ==> (s.tx.sequence == SeqAt(isn, 1 + |s.stream|) <==> right))
      && forall i :: 0 <= i < |s.log| && s.log[i].PureFin? ==>
           s.finished && (s.log[i].sequence == SeqAt(isn, 1 + |s.stream|) <==> right)
  {
    RunKeeps(isn, s0, events);
    var s := Run(isn, s0, events);
    if s.finished {
      FinMeans(isn, s);
    }
  }

  lemma FinMeans(isn: u32, s: Sender)
    requires FinInv(isn, s) && s.finished
    ensures
      var right := !Rode(s.log) || SeqAt(isn, 1 + |s.stream|) == U32_MAX;
      && (s.tx.cacheFin.None? ==> (s.tx.sequence == SeqAt(isn, 2 + |s.stream|) <==> right))
      && (s.tx.cacheFin.Some? ==> (s.tx.sequence == SeqAt(isn, 1 + |s.stream|) <==> right))
      && forall i :: 0 <= i < |s.log| && s.log[i].PureFin? ==>
           (s.log[i].sequence == SeqAt(isn, 1 + |s.stream|) <==> right)
  {
    var end := 1 + |s.stream|;
    Distance(isn, end, end + 1);
    Distance(isn, end + 1, end + 2);
  }

  /**
   * Timers over every run: the timeout stays between 1 and 60 seconds, and no acknowledgement ever
   * takes a round-trip sample from the FIN, because a FIN counts as retransmitted from the start.
   */
  lemma RunTimes(isn: u32, s0: Sender, events: seq<(Event, Env)>, ack: u32, now: nat)
    requires Inv(isn, s0) && AllowedRun(isn, s0, events)
    ensures
      var tx := Run(isn, s0, events).tx;
      && MIN_RTO <= tx.rto <= MAX_RTO
      && tx.WellSized()
      && tx.Sampled(ack, now) == if tx.AcksSyn(ack) then Some(Timer(tx.cacheSyn.value, 0).Elapsed(now))
                                 else tx.cache.InvalidateTo(ack, now).1
  {
    RunKeeps(isn, s0, events);
  }
}
