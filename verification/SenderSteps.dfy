/**
 * The sending side as a state machine: forwards, a close, ticks, acknowledgements, fast and
 * selective retransmissions and replies, in any order, and the conservation every step keeps.
 *
 * `Sender` adds to the transmit state the bytes forwarded so far, how many of them were
 * acknowledged, every frame sent, and whether a close and a FIN have happened. Byte `i` of the
 * forwarded stream has position `1 + i` from the initial sequence number, which the SYN takes.
 */
module SenderSteps {
  import opened Basics
  import opened SequenceNumbers
  import opened SendQueue
  import opened SequenceRanges
  import opened Transmit

  datatype Sender = Sender(
    tx: Tx, stream: seq<byte>, acked: nat, log: seq<Frame>, closed: bool, finished: bool)

  /** The regions that run under the mutex. */
  datatype Event =
    | Forward(payload: seq<byte>)
    | Close
    | Tick
    | Acknowledge(ack: u32, sendWindow: nat)
    | FastRetransmit
    | SelectiveRetransmit(blocks: seq<Range>)
    | SendMore
    | SetSacks(filled: seq<Range>)
    | Reply(acknowledgement: u32, window: nat)

  /** The state change and the frames of one event. */
  function React(tx: Tx, e: Event, env: Env): Out
    requires tx.cache.Ok() && 0 < env.mss
  {
    match e
    case Forward(payload) => tx.Forward(payload, env)
    case Close => tx.Close(env)
    case Tick => tx.Tick(env)
    case Acknowledge(ack, sendWindow) => Out(tx.Acknowledge(ack, env.now).(sendWindow := sendWindow), [], true)
    case FastRetransmit => tx.RetransmitAll(env)
    case SelectiveRetransmit(blocks) => tx.RetransmitWithout(blocks, env)
    case SendMore => tx.SendTcpAck(env)
    case SetSacks(filled) => Out(tx.SetSacks(filled), [], true)
    case Reply(acknowledgement, window) =>
      var t := tx.(acknowledgement := acknowledgement, window := window);
      Out(t, [t.AckFrame(env)], true)
  }

  /** A forward is refused while a FIN is queued or unacknowledged. */
  predicate Refuses(tx: Tx) { tx.cacheFin.Some? || tx.queueFin }

  function Step(s: Sender, e: Event, env: Env): Sender
    requires s.tx.cache.Ok() && 0 < env.mss
  {
    var out := React(s.tx, e, env);
    Sender(
      out.tx,
      if e.Forward? && !Refuses(s.tx) then s.stream + e.payload else s.stream,
      if e.Acknowledge? && Ahead(e.ack, s.tx.cache.sequence) then
        s.acked + Min(Sub(e.ack, s.tx.cache.sequence), |s.tx.cache.bytes|)
      else s.acked,
      s.log + out.frames,
      s.closed || e.Close?,
      s.finished || out.tx.cacheFin.Some?)
  }

  // ---------------------------------------------------------------------------------------------
  // The invariant
  // ---------------------------------------------------------------------------------------------

  /** The frame, if it carries data, carries a slice of the stream under its own number. */
  ghost predicate Slice(isn: u32, stream: seq<byte>, f: Frame) {
    f.Data? ==> exists pos: nat :: SliceFrom(isn, stream, f, pos)
  }

  ghost predicate SliceFrom(isn: u32, stream: seq<byte>, f: Frame, pos: nat)
    requires f.Data?
  {
    && 0 < |f.payload| < U32_MAX && pos + |f.payload| <= |stream|
    && f.payload == stream[pos..pos + |f.payload|]
    && f.sequence == SeqAt(isn, 1 + pos)
  }

  ghost predicate AllSlices(isn: u32, stream: seq<byte>, frames: seq<Frame>) {
    forall i :: 0 <= i < |frames| ==> Slice(isn, stream, frames[i])
  }

  /** Before the SYN is acknowledged nothing has been sent. */
  ghost predicate Opening(isn: u32, s: Sender) {
    && s.tx.sequence == s.tx.cache.sequence == isn && s.tx.cache.bytes == []
    && s.tx.queue == s.stream && s.acked == 0 && !s.finished
  }

  /** Forwarded bytes = acknowledged bytes ++ cache ++ queue, and numbers agree with positions. */
  ghost predicate Established(isn: u32, s: Sender) {
    && !s.finished
    && s.acked <= |s.stream| && s.tx.cache.bytes + s.tx.queue == s.stream[s.acked..]
    && s.tx.cache.sequence == SeqAt(isn, 1 + s.acked)
    && s.tx.sequence == SeqAt(isn, 1 + s.acked + |s.tx.cache.bytes|)
  }

  /** Once a FIN has left, everything forwarded is acknowledged or in the cache. */
  ghost predicate Closing(isn: u32, s: Sender) {
    && s.finished && s.closed && !s.tx.queueFin && s.tx.queue == []
    && s.acked <= |s.stream| && s.tx.cache.bytes == s.stream[s.acked..]
    && (s.tx.cache.sequence == SeqAt(isn, 1 + s.acked)
        || (s.acked == |s.stream| && s.tx.cache.sequence == SeqAt(isn, 2 + s.acked)))
  }

  /** The send window never exceeds the cache, and the cache is smaller than one window. */
  ghost predicate FlowOk(tx: Tx) {
    tx.cache.Ok() && tx.sendWindow <= tx.cache.capacity < MAX_WINDOW
  }

  ghost predicate Core(isn: u32, s: Sender) {
    && FlowOk(s.tx)
    && (if s.tx.cacheSyn.Some? then Opening(isn, s) else Established(isn, s) || Closing(isn, s))
    && (s.tx.queueFin ==> s.closed)
    && (s.tx.cacheFin.Some? ==> s.finished)
    && AllSlices(isn, s.stream, s.log)
  }

  // ---------------------------------------------------------------------------------------------
  // What the environment does
  // ---------------------------------------------------------------------------------------------

  /** An acknowledgement of the SYN exactly, or of nothing beyond what was sent. */
  ghost predicate AllowedAck(isn: u32, s: Sender, ack: u32) {
    exists t: nat :: AckAt(isn, s, ack, t)
  }

  ghost predicate AckAt(isn: u32, s: Sender, ack: u32, t: nat) {
    && ack == SeqAt(isn, t)
    && if s.tx.cacheSyn.Some? then t == 1
       else
         && t <= 1 + s.acked + |s.tx.cache.bytes| + (if s.finished then 1 else 0)
         && s.acked + |s.tx.cache.bytes| + 2 + MAX_WINDOW < t + U32_MAX
  }

  /** The guard under which a FIN would overtake queued bytes. */
  predicate FinOvertakes(tx: Tx) {
    tx.cacheSyn.None? && tx.queueFin && tx.sendWindow == 0 && tx.cache.bytes == [] && tx.queue != []
  }

  /**
   * The stream worker closes at most once (src/socks/mod.rs:79-98); a forward after that is either
   * refused or, once the FIN has been dropped, not made; the peer acknowledges nothing it was not
   * sent and reports a window its scale allows; block ends are never 0; and no FIN is sent past
   * queued bytes.
   */
  ghost predicate Allowed(isn: u32, s: Sender, e: Event) {
    match e
    case Forward(_) => !s.closed || Refuses(s.tx)
    case Close => !s.closed && !FinOvertakes(s.tx.(queueFin := true))
    case Acknowledge(ack, sendWindow) => AllowedAck(isn, s, ack) && sendWindow <= s.tx.cache.capacity
    case SelectiveRetransmit(blocks) => forall i :: 0 <= i < |blocks| ==> blocks[i].1 > 0
    case SendMore => !FinOvertakes(s.tx)
    case _ => true
  }

  // ---------------------------------------------------------------------------------------------
  // Segmentation
  // ---------------------------------------------------------------------------------------------

  lemma {:induction false} SegmentsAreSlices(isn: u32, stream: seq<byte>, tx: Tx, pos: nat, payload: seq<byte>,
                                             fin: bool, env: Env)
    requires 0 < env.mss && pos + |payload| <= |stream| && payload == stream[pos..pos + |payload|]
             && |payload| < U32_MAX
    ensures AllSlices(isn, stream, tx.Segments(SeqAt(isn, 1 + pos), payload, fin, env))
    decreases |payload|
  {
    if payload != [] {
      var size := Min(env.mss, |payload|);
      var from := SeqAt(isn, 1 + pos);
      var first := Data(from, tx.acknowledgement, tx.ReportedWindow(env), fin, payload[..size]);
      assert SliceFrom(isn, stream, first, pos);
      SeqAtStep(isn, 1 + pos, size);
      SegmentsAreSlices(isn, stream, tx, pos + size, payload[size..], fin, env);
    }
  }

  /**
   * Segmentation is lossless: at most MSS bytes per segment, all but the last full, consecutive
   * sequence numbers, and the payloads concatenate to the whole.
   */
  lemma {:induction false} SegmentsRejoin(tx: Tx, from: u32, payload: seq<byte>, fin: bool, env: Env)
    requires 0 < env.mss && |payload| <= U32_MAX
    ensures
      var segments := tx.Segments(from, payload, fin, env);
      && (forall i :: 0 <= i < |segments| ==> segments[i].Data? && segments[i].fin == fin)
      && (forall i :: 0 <= i < |segments| ==> 0 < |segments[i].payload| <= Min(env.mss, |payload|))
      && (forall i :: 0 <= i < |segments| - 1 ==> |segments[i].payload| == env.mss)
      && (forall i :: 0 <= i < |segments| - 1 ==>
            segments[i + 1].sequence == Add(segments[i].sequence, |segments[i].payload|))
      && (segments != [] ==> segments[0].sequence == from)
      && Flatten(Payloads(segments)) == payload
    decreases |payload|
  {
    if payload == [] {
      assert tx.Segments(from, payload, fin, env) == [];
    } else {
      var size := Min(env.mss, |payload|);
      var segments := tx.Segments(from, payload, fin, env);
      var rest := tx.Segments(Add(from, size), payload[size..], fin, env);
      SegmentsRejoin(tx, Add(from, size), payload[size..], fin, env);
      assert segments == [segments[0]] + rest && segments[1..] == rest;
    }
  }

  function Payloads(frames: seq<Frame>): seq<seq<byte>> {
    if frames == [] then []
    else [if frames[0].Data? then frames[0].payload else []] + Payloads(frames[1..])
  }

  lemma AdvanceByPosition(isn: u32, s: nat, end: nat)
    requires end <= s + MAX_WINDOW && s + MAX_WINDOW < end + U32_MAX
    ensures Advance(SeqAt(isn, s), SeqAt(isn, end)) == SeqAt(isn, Max(s, end))
  {
    AheadByPosition(isn, s, end);
    Apart(isn, s, end);
  }

  /** Without a FIN the next sequence number ends up at the later of its old value and the end. */
  lemma {:induction false} AdvanceAllByPosition(isn: u32, s: nat, p: nat, payload: seq<byte>, mss: nat)
    requires 0 < mss && payload != [] && |payload| <= U32_MAX
    requires p + |payload| <= s + MAX_WINDOW && s + |payload| + MAX_WINDOW < p + U32_MAX
    ensures AdvanceAll(SeqAt(isn, s), SeqAt(isn, p), payload, false, mss) == SeqAt(isn, Max(s, p + |payload|))
    decreases |payload|
  {
    if |payload| <= mss {
      SeqAtStep(isn, p, |payload|);
      AdvanceByPosition(isn, s, p + |payload|);
      AdvanceLast(SeqAt(isn, s), SeqAt(isn, p), payload, mss, SeqAt(isn, p + |payload|));
    } else {
      var m, rest := Max(s, p + mss), payload[mss..];
      var end := Max(s, p + |payload|);
      assert Max(m, p + mss + |rest|) == end;
      AdvanceAllByPosition(isn, m, p + mss, rest, mss);
      AdvanceRest(isn, s, p, payload, mss, m, end);
    }
  }

  lemma AdvanceRest(isn: u32, s: nat, p: nat, payload: seq<byte>, mss: nat, m: nat, end: nat)
    requires 0 < mss < |payload| <= U32_MAX && m == Max(s, p + mss)
    requires p + mss <= s + MAX_WINDOW && s + MAX_WINDOW < p + mss + U32_MAX
    requires AdvanceAll(SeqAt(isn, m), SeqAt(isn, p + mss), payload[mss..], false, mss) == SeqAt(isn, end)
    ensures AdvanceAll(SeqAt(isn, s), SeqAt(isn, p), payload, false, mss) == SeqAt(isn, end)
  {
    FirstByPosition(isn, s, p, mss);
    AdvanceFirst(payload, mss, SeqAt(isn, s), SeqAt(isn, p), SeqAt(isn, p + mss), SeqAt(isn, m), SeqAt(isn, end));
  }

  lemma FirstByPosition(isn: u32, s: nat, p: nat, mss: nat)
    requires mss <= U32_MAX && p + mss <= s + MAX_WINDOW && s + MAX_WINDOW < p + mss + U32_MAX
    ensures SeqAt(isn, p + mss) == Add(SeqAt(isn, p), mss)
    ensures Advance(SeqAt(isn, s), SeqAt(isn, p + mss)) == SeqAt(isn, Max(s, p + mss))
  {
    SeqAtStep(isn, p, mss);
    AdvanceByPosition(isn, s, p + mss);
  }

  lemma AdvanceLast(sequence: u32, from: u32, payload: seq<byte>, mss: nat, end: u32)
    requires 0 < mss && payload != [] && |payload| <= U32_MAX && |payload| <= mss && end == Add(from, |payload|)
    ensures AdvanceAll(sequence, from, payload, false, mss) == Advance(sequence, end)
  {
  }

  lemma AdvanceFirst(payload: seq<byte>, mss: nat, sequence: u32, from: u32, end: u32, sequence': u32, result: u32)
    requires 0 < mss < |payload| <= U32_MAX && end == Add(from, mss) && sequence' == Advance(sequence, end)
    requires AdvanceAll(sequence', end, payload[mss..], false, mss) == result
    ensures AdvanceAll(sequence, from, payload, false, mss) == result
  {
  }

  /** Frames that are slices stay slices when more is forwarded. */
  lemma SlicesExtend(isn: u32, stream: seq<byte>, more: seq<byte>, frames: seq<Frame>)
    requires AllSlices(isn, stream, frames)
    ensures AllSlices(isn, stream + more, frames)
  {
    forall i | 0 <= i < |frames| && frames[i].Data?
      ensures Slice(isn, stream + more, frames[i])
    {
      var pos: nat :| SliceFrom(isn, stream, frames[i], pos);
      assert SliceFrom(isn, stream + more, frames[i], pos);
    }
  }

  // ---------------------------------------------------------------------------------------------
  // Sending
  // ---------------------------------------------------------------------------------------------

  /** The sender after an operation that neither forwards nor acknowledges. */
  function After(s: Sender, out: Out): Sender {
    s.(tx := out.tx, log := s.log + out.frames, finished := s.finished || out.tx.cacheFin.Some?)
  }

  lemma LogGrows(isn: u32, stream: seq<byte>, log: seq<Frame>, frames: seq<Frame>)
    requires AllSlices(isn, stream, log) && AllSlices(isn, stream, frames)
    ensures AllSlices(isn, stream, log + frames)
  {
  }

  /** The next bytes of the queue are the next bytes of the stream. */
  lemma QueuedIsSlice(stream: seq<byte>, acked: nat, cache: seq<byte>, queue: seq<byte>, size: nat)
    requires acked <= |stream| && cache + queue == stream[acked..] && size <= |queue|
    ensures queue[..size] == stream[acked + |cache|..acked + |cache| + size]
    ensures (cache + queue[..size]) + queue[size..] == stream[acked..]
  {
    assert queue[..size] == (cache + queue)[|cache|..|cache| + size];
  }

  /** The state in which `SendQueued` starts sending. */
  function Moved(tx: Tx, size: nat, env: Env): Tx
    requires tx.WellSized() && size <= |tx.queue| && size <= tx.cache.Remaining()
  {
    tx.(queue := tx.queue[size..], cache := tx.cache.Append(tx.queue[..size], tx.rto, env.now))
  }

  lemma SendPlain(isn: u32, s: Sender, size: nat, env: Env)
    requires Core(isn, s) && s.tx.cacheSyn.None? && Established(isn, s) && 0 < env.mss
    requires 0 < size <= |s.tx.queue| && size <= s.tx.cache.Remaining()
    ensures Core(isn, After(s, Moved(s.tx, size, env).SendRaw(s.tx.sequence, s.tx.queue[..size], false, env)))
  {
    var tx := s.tx;
    var n := |tx.cache.bytes|;
    var payload := tx.queue[..size];
    QueuedIsSlice(s.stream, s.acked, tx.cache.bytes, tx.queue, size);
    AppendKeepsOk(tx.cache, payload, tx.rto, env.now);
    var moved := Moved(tx, size, env);
    SegmentsAreSlices(isn, s.stream, moved, s.acked + n, payload, false, env);
    LogGrows(isn, s.stream, s.log, moved.Segments(tx.sequence, payload, false, env));
    AdvanceAllByPosition(isn, 1 + s.acked + n, 1 + s.acked + n, payload, env.mss);
    var s' := After(s, moved.SendRaw(tx.sequence, payload, false, env));
    MovedEstablished(isn, s, s', size);
    StaysEstablished(isn, s, s');
  }

  lemma MovedEstablished(isn: u32, s: Sender, s': Sender, size: nat)
    requires Established(isn, s) && size <= |s.tx.queue|
    requires !s'.finished && s'.stream == s.stream && s'.acked == s.acked
    requires s'.tx.queue == s.tx.queue[size..] && s'.tx.cache.bytes == s.tx.cache.bytes + s.tx.queue[..size]
    requires s'.tx.cache.sequence == s.tx.cache.sequence
    requires s'.tx.sequence == SeqAt(isn, 1 + s.acked + |s'.tx.cache.bytes|)
    ensures Established(isn, s')
  {
    QueuedIsSlice(s.stream, s.acked, s.tx.cache.bytes, s.tx.queue, size);
  }

  lemma SendWithFin(isn: u32, s: Sender, env: Env)
    requires Core(isn, s) && s.tx.cacheSyn.None? && Established(isn, s) && 0 < env.mss && s.tx.queueFin
    requires 0 < |s.tx.queue| <= s.tx.cache.Remaining()
    ensures
      var moved := Moved(s.tx, |s.tx.queue|, env).AppendCacheFin(env.now);
      Core(isn, After(s, moved.SendRaw(s.tx.sequence, s.tx.queue, true, env)))
  {
    var tx := s.tx;
    QueuedIsSlice(s.stream, s.acked, tx.cache.bytes, tx.queue, |tx.queue|);
    assert tx.queue[..|tx.queue|] == tx.queue;
    AppendKeepsOk(tx.cache, tx.queue, tx.rto, env.now);
    var moved := Moved(tx, |tx.queue|, env).AppendCacheFin(env.now);
    SegmentsAreSlices(isn, s.stream, moved, s.acked + |tx.cache.bytes|, tx.queue, true, env);
    LogGrows(isn, s.stream, s.log, moved.Segments(tx.sequence, tx.queue, true, env));
  }

  /** Sending from the queue: the bytes fit the cache, leave under their own numbers, and a FIN with them is last. */
  lemma SendQueuedKeeps(isn: u32, s: Sender, size: nat, env: Env)
    requires Core(isn, s) && s.tx.cacheSyn.None? && Established(isn, s) && 0 < env.mss
    requires 0 < size == s.tx.Allowance(env.mss)
    ensures
      var out := s.tx.SendQueued(size, env);
      && out.ok && Core(isn, After(s, out))
      && !(out.tx.queueFin && out.tx.cache.bytes == [])
  {
    if s.tx.queue[size..] == [] && s.tx.queueFin {
      assert size == |s.tx.queue| && s.tx.queue[..size] == s.tx.queue;
      SendWithFin(isn, s, env);
    } else {
      SendPlain(isn, s, size, env);
    }
  }

  lemma SendQueuedFinKeeps(isn: u32, s: Sender, env: Env)
    requires Core(isn, s) && s.tx.cacheSyn.None?
    requires s.tx.queueFin && s.tx.cache.bytes == [] ==> s.tx.queue == []
    ensures Core(isn, After(s, s.tx.SendQueuedFin(env)))
  {
    LogGrows(isn, s.stream, s.log, s.tx.SendQueuedFin(env).frames);
  }

  /** `send_tcp_ack` keeps the invariant and never fails. */
  lemma SendTcpAckKeeps(isn: u32, s: Sender, env: Env)
    requires Core(isn, s) && 0 < env.mss && !FinOvertakes(s.tx)
    ensures s.tx.SendTcpAck(env).ok && Core(isn, After(s, s.tx.SendTcpAck(env)))
  {
    if s.tx.cacheSyn.Some? {
      LogGrows(isn, s.stream, s.log, [s.tx.SynAckFrame(env)]);
    } else {
      var size := s.tx.Allowance(env.mss);
      if s.tx.sendWindow > 0 && size > 0 {
        SendQueuedKeeps(isn, s, size, env);
        var sent := s.tx.SendQueued(size, env);
        assert After(s, sent) == After(s, s.tx.SendTcpAck(env));
      } else {
        SendQueuedFinKeeps(isn, s, env);
      }
    }
  }

  lemma ForwardKeeps(isn: u32, s: Sender, payload: seq<byte>, env: Env)
    requires Core(isn, s) && 0 < env.mss && Allowed(isn, s, Forward(payload))
    ensures Core(isn, Step(s, Forward(payload), env))
  {
    if Refuses(s.tx) {
      assert s.log + [] == s.log;
      assert Step(s, Forward(payload), env) == s;
      return;
    }
    ForwardedCore(isn, s, payload);
    var s1 := s.(tx := s.tx.(queue := s.tx.queue + payload), stream := s.stream + payload);
    SendTcpAckKeeps(isn, s1, env);
    assert Step(s, Forward(payload), env) == After(s1, s1.tx.SendTcpAck(env));
  }

  /** Queueing more bytes of the stream. */
  lemma ForwardedCore(isn: u32, s: Sender, payload: seq<byte>)
    requires Core(isn, s) && !s.closed
    ensures Core(isn, s.(tx := s.tx.(queue := s.tx.queue + payload), stream := s.stream + payload))
  {
    SlicesExtend(isn, s.stream, payload, s.log);
    if s.tx.cacheSyn.None? {
      assert s.tx.cache.bytes + (s.tx.queue + payload) == (s.tx.cache.bytes + s.tx.queue) + payload;
      assert (s.stream + payload)[s.acked..] == s.stream[s.acked..] + payload;
    }
  }

  lemma CloseKeeps(isn: u32, s: Sender, env: Env)
    requires Core(isn, s) && 0 < env.mss && Allowed(isn, s, Close)
    ensures Core(isn, Step(s, Close, env))
  {
    var s1 := s.(tx := s.tx.(queueFin := true), closed := true);
    SendTcpAckKeeps(isn, s1, env);
    assert Step(s, Close, env) == After(s1, s1.tx.SendTcpAck(env));
  }

  // ---------------------------------------------------------------------------------------------
  // Acknowledgements
  // ---------------------------------------------------------------------------------------------

  /** An acknowledgement of position `t` on a cache whose first byte has position `base`. */
  lemma AckCache(isn: u32, q: QueueState, base: nat, t: nat, now: nat)
    requires q.Ok() && q.capacity <= MAX_WINDOW && q.sequence == SeqAt(isn, base)
    requires t <= base + |q.bytes| + 1 && t <= base + MAX_WINDOW && base + MAX_WINDOW < t + U32_MAX
    ensures
      var ack := SeqAt(isn, t);
      var q' := q.InvalidateTo(ack, now).0;
      && (Ahead(ack, q.sequence) <==> base <= t)
      && (base <= t ==>
            && q'.Ok() && q'.capacity == q.capacity && q'.sequence == ack && Sub(ack, q.sequence) == t - base
            && q'.bytes == if t - base <= |q.bytes| then q.bytes[t - base..] else [])
      && (t < base ==> q' == q)
  {
    AheadByPosition(isn, base, t);
    if base <= t {
      InvalidateDropsPrefix(q, SeqAt(isn, t), now);
    }
  }

  lemma CacheEndAhead(isn: u32, q: QueueState, base: nat, t: nat, now: nat)
    requires q.Ok() && q.capacity < MAX_WINDOW && q.sequence == SeqAt(isn, base)
    requires t <= base + |q.bytes| + 1 && base + |q.bytes| + MAX_WINDOW < t + U32_MAX
    ensures Ahead(SeqAt(isn, t), q.InvalidateTo(SeqAt(isn, t), now).0.RecvNext()) <==> base + |q.bytes| <= t
  {
    AckCache(isn, q, base, t, now);
    var q' := q.InvalidateTo(SeqAt(isn, t), now).0;
    var end := Max(base + |q.bytes|, t);
    RecvNextAt(isn, q', Max(base, t), end);
    AheadByPosition(isn, end, t);
  }

  lemma RecvNextAt(isn: u32, q: QueueState, base: nat, end: nat)
    requires q.WellSized() && q.sequence == SeqAt(isn, base) && end == base + |q.bytes|
    ensures q.RecvNext() == SeqAt(isn, end)
  {
    SeqAtStep(isn, base, |q.bytes|);
  }

  /** The sender after an acknowledgement, given the transmit state it leads to. */
  function Acked(s: Sender, ack: u32, tx: Tx): Sender {
    s.(tx := tx,
       acked := if Ahead(ack, s.tx.cache.sequence)
                then s.acked + Min(Sub(ack, s.tx.cache.sequence), |s.tx.cache.bytes|) else s.acked,
       finished := s.finished || tx.cacheFin.Some?)
  }

  /** What an acknowledgement changes, round-trip estimation aside. */
  ghost predicate AckedTo(tx: Tx, ack: u32, now: nat, tx': Tx)
    requires tx.WellSized()
  {
    && tx'.cache == tx.cache.InvalidateTo(ack, now).0
    && tx'.queue == tx.queue && tx'.queueFin == tx.queueFin
    && tx'.cacheSyn == (if tx.AcksSyn(ack) then None else tx.cacheSyn)
    && (tx'.cacheFin.Some? ==> tx.cacheFin.Some?)
    && tx'.sequence ==
         (var sequence := if tx.AcksSyn(ack) then Add(tx.sequence, 1) else tx.sequence;
          if tx.AcksFin(ack, now) then Add(sequence, 1) else sequence)
  }

  lemma AcknowledgeDoes(s: Sender, ack: u32, sendWindow: nat, env: Env)
    requires s.tx.cache.Ok() && 0 < env.mss
    ensures
      var s' := Step(s, Event.Acknowledge(ack, sendWindow), env);
      AckedTo(s.tx, ack, env.now, s'.tx) && s'.tx.sendWindow == sendWindow && s' == Acked(s, ack, s'.tx)
  {
    AcknowledgeReaches(s.tx, ack, env.now);
    assert s.log + [] == s.log;
  }

  lemma AcknowledgeReaches(tx: Tx, ack: u32, now: nat)
    requires tx.WellSized()
    ensures AckedTo(tx, ack, now, tx.Acknowledge(ack, now))
  {
  }

  lemma AckOpening(isn: u32, s: Sender, ack: u32, tx: Tx, now: nat)
    requires Core(isn, s) && s.tx.cacheSyn.Some? && AckedTo(s.tx, ack, now, tx)
    requires ack == SeqAt(isn, 1) && tx.sendWindow <= s.tx.cache.capacity
    ensures Core(isn, Acked(s, ack, tx))
  {
    AckCache(isn, s.tx.cache, 0, 1, now);
    SeqAtStep(isn, 0, 1);
    assert s.stream[0..] == s.stream;
  }

  lemma AckEstablished(isn: u32, s: Sender, ack: u32, t: nat, tx: Tx, now: nat)
    requires Core(isn, s) && s.tx.cacheSyn.None? && Established(isn, s) && AckedTo(s.tx, ack, now, tx)
    requires AckAt(isn, s, ack, t) && tx.sendWindow <= s.tx.cache.capacity
    ensures Core(isn, Acked(s, ack, tx))
  {
    AckCache(isn, s.tx.cache, 1 + s.acked, t, now);
    var s' := Acked(s, ack, tx);
    EstablishedMoves(isn, s, s', if 1 + s.acked <= t then t - 1 - s.acked else 0);
    StaysEstablished(isn, s, s');
  }

  /** What is left of the invariant once the sender is known to be established. */
  lemma StaysEstablished(isn: u32, s: Sender, s': Sender)
    requires Core(isn, s) && s'.tx.cacheSyn.None? && Established(isn, s') && FlowOk(s'.tx)
    requires s'.tx.queueFin == s.tx.queueFin && s'.closed == s.closed && s'.tx.cacheFin.None?
    requires s'.stream == s.stream && AllSlices(isn, s.stream, s'.log)
    ensures Core(isn, s')
  {
  }

  lemma EstablishedMoves(isn: u32, s: Sender, s': Sender, n: nat)
    requires Established(isn, s) && n <= |s.tx.cache.bytes| && s'.acked == s.acked + n
    requires !s'.finished && s'.stream == s.stream
    requires s'.tx.queue == s.tx.queue && s'.tx.sequence == s.tx.sequence
    requires s'.tx.cache.bytes == s.tx.cache.bytes[n..] && s'.tx.cache.sequence == SeqAt(isn, 1 + s.acked + n)
    ensures Established(isn, s')
  {
    DropSlice(s.stream, s.acked, s.tx.cache.bytes, s.tx.queue, n);
  }

  lemma DropSlice(stream: seq<byte>, acked: nat, cache: seq<byte>, queue: seq<byte>, n: nat)
    requires acked <= |stream| && cache + queue == stream[acked..] && n <= |cache|
    ensures acked + n <= |stream| && cache[n..] + queue == stream[acked + n..]
  {
    assert |cache + queue| == |stream[acked..]|;
    assert cache[n..] + queue == (cache + queue)[n..];
  }

  lemma AckClosing(isn: u32, s: Sender, ack: u32, t: nat, tx: Tx, now: nat)
    requires Core(isn, s) && s.tx.cacheSyn.None? && Closing(isn, s) && AckedTo(s.tx, ack, now, tx)
    requires AckAt(isn, s, ack, t) && tx.sendWindow <= s.tx.cache.capacity
    ensures Core(isn, Acked(s, ack, tx))
  {
    var base := if s.tx.cache.sequence == SeqAt(isn, 1 + s.acked) then 1 + s.acked else 2 + s.acked;
    AckClosingAt(isn, s, ack, t, tx, now, base);
  }

  /** After the FIN the cache starts right after the acknowledged bytes, or after the FIN as well. */
  lemma AckClosingAt(isn: u32, s: Sender, ack: u32, t: nat, tx: Tx, now: nat, base: nat)
    requires Core(isn, s) && s.tx.cacheSyn.None? && Closing(isn, s) && AckedTo(s.tx, ack, now, tx)
    requires AckAt(isn, s, ack, t) && tx.sendWindow <= s.tx.cache.capacity
    requires s.tx.cache.sequence == SeqAt(isn, base)
             && (base == 1 + s.acked || (base == 2 + s.acked && s.acked == |s.stream|))
    ensures Core(isn, Acked(s, ack, tx))
  {
    AckCache(isn, s.tx.cache, base, t, now);
    var n := if base <= t then Min(t - base, |s.tx.cache.bytes|) else 0;
    ClosingMoves(isn, s, Acked(s, ack, tx), n, Max(base, t));
  }

  lemma ClosingMoves(isn: u32, s: Sender, s': Sender, n: nat, base: nat)
    requires Closing(isn, s) && n <= |s.tx.cache.bytes| && s'.acked == s.acked + n
    requires s'.finished && s'.closed == s.closed && s'.stream == s.stream
    requires s'.tx.queueFin == s.tx.queueFin && s'.tx.queue == s.tx.queue
    requires s'.tx.cache.bytes == s.tx.cache.bytes[n..] && s'.tx.cache.sequence == SeqAt(isn, base)
    requires base == 1 + s'.acked || (base == 2 + s'.acked && s'.acked == |s.stream|)
    ensures Closing(isn, s')
  {
    assert s.tx.cache.bytes + [] == s.stream[s.acked..];
    DropSlice(s.stream, s.acked, s.tx.cache.bytes, [], n);
    assert s.tx.cache.bytes[n..] + [] == s.tx.cache.bytes[n..];
  }

  lemma AckKeeps(isn: u32, s: Sender, ack: u32, sendWindow: nat, env: Env)
    requires Core(isn, s) && 0 < env.mss && Allowed(isn, s, Event.Acknowledge(ack, sendWindow))
    ensures Core(isn, Step(s, Event.Acknowledge(ack, sendWindow), env))
  {
    AcknowledgeDoes(s, ack, sendWindow, env);
    var tx := Step(s, Event.Acknowledge(ack, sendWindow), env).tx;
    var t: nat :| AckAt(isn, s, ack, t);
    if s.tx.cacheSyn.Some? {
      AckOpening(isn, s, ack, tx, env.now);
    } else if Established(isn, s) {
      AckEstablished(isn, s, ack, t, tx, env.now);
    } else {
      AckClosing(isn, s, ack, t, tx, env.now);
    }
  }

  // ---------------------------------------------------------------------------------------------
  // Retransmission
  // ---------------------------------------------------------------------------------------------

  /** Resending cached bytes keeps the invariant: they are a slice under their own number. */
  lemma ResendKeeps(isn: u32, s: Sender, from: u32, d: nat, payload: seq<byte>, fin: bool, env: Env)
    requires Core(isn, s) && s.tx.cacheSyn.None? && 0 < env.mss && (fin ==> s.finished)
    requires payload != [] && d + |payload| <= |s.tx.cache.bytes| && payload == s.tx.cache.bytes[d..d + |payload|]
    requires from == Add(s.tx.cache.sequence, d)
    ensures Core(isn, After(s, s.tx.SendRaw(from, payload, fin, env)))
  {
    CachedIsSlice(isn, s, from, d, payload);
    SegmentsAreSlices(isn, s.stream, s.tx, s.acked + d, payload, fin, env);
    LogGrows(isn, s.stream, s.log, s.tx.Segments(from, payload, fin, env));
    if Established(isn, s) {
      ResendEstablished(isn, s, d, payload, env);
    } else {
      ResendClosing(isn, s, s.tx.SendRaw(from, payload, fin, env));
    }
  }

  lemma ResendEstablished(isn: u32, s: Sender, d: nat, payload: seq<byte>, env: Env)
    requires Core(isn, s) && s.tx.cacheSyn.None? && Established(isn, s) && 0 < env.mss
    requires payload != [] && d + |payload| <= |s.tx.cache.bytes|
    requires
      var segments := s.tx.Segments(SeqAt(isn, 1 + s.acked + d), payload, false, env);
      AllSlices(isn, s.stream, s.log + segments)
    ensures Core(isn, After(s, s.tx.SendRaw(SeqAt(isn, 1 + s.acked + d), payload, false, env)))
  {
    AdvanceAllByPosition(isn, 1 + s.acked + |s.tx.cache.bytes|, 1 + s.acked + d, payload, env.mss);
    StaysEstablished(isn, s, After(s, s.tx.SendRaw(SeqAt(isn, 1 + s.acked + d), payload, false, env)));
  }

  lemma ResendClosing(isn: u32, s: Sender, out: Out)
    requires Core(isn, s) && s.tx.cacheSyn.None? && Closing(isn, s)
    requires out.tx == s.tx.(sequence := out.tx.sequence) && AllSlices(isn, s.stream, s.log + out.frames)
    ensures Core(isn, After(s, out))
  {
    assert Closing(isn, After(s, out));
  }

  lemma CachedIsSlice(isn: u32, s: Sender, from: u32, d: nat, payload: seq<byte>)
    requires Core(isn, s) && s.tx.cacheSyn.None?
    requires payload != [] && d + |payload| <= |s.tx.cache.bytes| && payload == s.tx.cache.bytes[d..d + |payload|]
    requires from == Add(s.tx.cache.sequence, d)
    ensures from == SeqAt(isn, 1 + s.acked + d)
    ensures s.acked + d + |payload| <= |s.stream| && payload == s.stream[s.acked + d..s.acked + d + |payload|]
  {
    SeqAtStep(isn, 1 + s.acked, d);
    SliceOfTail(s.stream, s.acked, s.tx.cache.bytes, s.tx.queue, d, |payload|);
  }

  lemma SliceOfTail(stream: seq<byte>, acked: nat, cache: seq<byte>, queue: seq<byte>, d: nat, n: nat)
    requires acked <= |stream| && d + n <= |cache|
    requires cache + queue == stream[acked..] || cache == stream[acked..]
    ensures acked + d + n <= |stream| && cache[d..d + n] == stream[acked + d..acked + d + n]
  {
    var tail := stream[acked..];
    assert cache == tail[..|cache|];
    assert tail[d..d + n] == stream[acked + d..acked + d + n];
  }

  /** Timers and the retransmission timeout are not part of the invariant. */
  lemma RetimedKeeps(isn: u32, s: Sender, q: QueueState, rto: nat, fin: Option<Timer>, retrans: bool)
    requires Core(isn, s) && q.Ok() && q.capacity == s.tx.cache.capacity
    requires q.sequence == s.tx.cache.sequence && q.bytes == s.tx.cache.bytes && (fin.Some? ==> s.tx.cacheFin.Some?)
    ensures Core(isn, s.(tx := s.tx.(cache := q, rto := rto, cacheFin := fin, cacheFinRetrans := retrans)))
  {
  }

  /** The state in which a tick starts sending. */
  function Ticked(tx: Tx, env: Env): Tx
    requires tx.cache.Ok()
  {
    var (q, payload) := tx.cache.TimedOut(Max(MAX_RTO, Min(MIN_RTO, SaturatingMul(tx.rto, 2))), env.now);
    var t := tx.(cache := q);
    if |q.bytes| > 0 then
      if |q.bytes| == |payload| && t.cacheFin.Some? then t.DoubleRto().UpdateFinTimer(env.now) else t.DoubleRto()
    else if t.cacheFin.Some? && t.cacheFin.value.Expired(env.now) then t.DoubleRto().UpdateFinTimer(env.now)
    else t
  }

  lemma TickedKeeps(isn: u32, s: Sender, env: Env)
    requires Core(isn, s)
    ensures Core(isn, s.(tx := Ticked(s.tx, env)))
  {
    var rto := Max(MAX_RTO, Min(MIN_RTO, SaturatingMul(s.tx.rto, 2)));
    TimedOutKeepsOk(s.tx.cache, rto, env.now);
    var t := Ticked(s.tx, env);
    RetimedKeeps(isn, s, t.cache, t.rto, t.cacheFin, t.cacheFinRetrans);
  }

  function TickPayload(tx: Tx, env: Env): (payload: seq<byte>)
    requires tx.cache.Ok()
    ensures payload <= tx.cache.bytes
  {
    tx.cache.TimedOut(Max(MAX_RTO, Min(MIN_RTO, SaturatingMul(tx.rto, 2))), env.now).1
  }

  /** With bytes in the cache, a tick sends the timed-out prefix. */
  lemma TickSends(tx: Tx, env: Env)
    requires tx.cache.Ok() && 0 < env.mss && tx.cache.bytes != []
    ensures
      var t, payload := Ticked(tx, env), TickPayload(tx, env);
      && t.cache.bytes == tx.cache.bytes && t.cacheFin.Some? == tx.cacheFin.Some?
      && tx.Tick(env) == t.SendRaw(t.cache.sequence, payload, |tx.cache.bytes| == |payload| && tx.cacheFin.Some?, env)
  {
  }

  lemma TickKeeps(isn: u32, s: Sender, env: Env)
    requires Core(isn, s) && 0 < env.mss
    ensures Core(isn, Step(s, Event.Tick, env))
  {
    TickedKeeps(isn, s, env);
    var s1, out := s.(tx := Ticked(s.tx, env)), s.tx.Tick(env);
    assert Step(s, Event.Tick, env) == After(s1, out);
    if s.tx.cache.bytes != [] {
      TickSends(s.tx, env);
      var payload := TickPayload(s.tx, env);
      if payload == [] {
        AfterNothing(s1);
      } else {
        var fin := |s.tx.cache.bytes| == |payload| && s.tx.cacheFin.Some?;
        ResendKeeps(isn, s1, s1.tx.cache.sequence, 0, payload, fin, env);
      }
    } else {
      LogGrows(isn, s.stream, s.log, out.frames);
    }
  }

  lemma FastRetransmitKeeps(isn: u32, s: Sender, env: Env)
    requires Core(isn, s) && 0 < env.mss
    ensures Core(isn, Step(s, FastRetransmit, env))
  {
    assert s.log + [] == s.log;
    if s.tx.cache.bytes != [] {
      ResendKeeps(isn, s, s.tx.cache.sequence, 0, s.tx.cache.bytes, s.tx.cacheFin.Some?, env);
    }
    assert Step(s, FastRetransmit, env) == After(s, s.tx.RetransmitAll(env));
  }

  /** The start of every range is a number of the cache's own arithmetic. */
  ghost predicate Reachable(sequence: u32, ranges: seq<Range>) {
    forall i :: 0 <= i < |ranges| ==> ranges[i].0 > 0 || sequence == 0
  }

  lemma {:induction false} SubtractStarts(sequence: u32, ranges: seq<Range>, blocks: seq<Range>)
    requires Reachable(sequence, ranges) && forall i :: 0 <= i < |blocks| ==> blocks[i].1 > 0
    ensures Reachable(sequence, SubtractAll(ranges, blocks))
    decreases |blocks|
  {
    if blocks != [] {
      SubtractOneStarts(sequence, ranges, blocks[0]);
      SubtractStarts(sequence, SubtractOne(ranges, blocks[0]), blocks[1..]);
    }
  }

  lemma {:induction false} SubtractOneStarts(sequence: u32, ranges: seq<Range>, block: Range)
    requires Reachable(sequence, ranges) && block.1 > 0
    ensures Reachable(sequence, SubtractOne(ranges, block))
    decreases |ranges|
  {
    if ranges != [] {
      SubtractOneStarts(sequence, ranges[1..], block);
      var first := Disjoint(ranges[0], block);
      assert forall i :: 0 <= i < |first| ==> first[i].0 == ranges[0].0 || first[i].0 == block.1;
      assert Reachable(sequence, first);
    }
  }

  /** One iteration of the sending loop. */
  lemma SendRangeKeeps(isn: u32, s: Sender, range: Range, env: Env)
    requires Core(isn, s) && s.tx.cacheSyn.None? && 0 < env.mss && (range.0 > 0 || s.tx.cache.sequence == 0)
    ensures Core(isn, After(s, s.tx.SendRange(range, env)))
  {
    match s.tx.cache.Get(range.0, Sub(range.1, range.0)) {
      case Failed(_) => AfterNothing(s);
      case Got(payload) =>
        if payload == [] {
          AfterNothing(s);
        } else {
          AddUndoesSub(range.0, s.tx.cache.sequence);
          var fin := range.1 == s.tx.cache.RecvNext() && s.tx.cacheFin.Some?;
          ResendKeeps(isn, s, range.0, Sub(range.0, s.tx.cache.sequence), payload, fin, env);
        }
    }
  }

  lemma {:induction false} SendRangesKeeps(isn: u32, s: Sender, ranges: seq<Range>, env: Env)
    requires Core(isn, s) && s.tx.cacheSyn.None? && 0 < env.mss && Reachable(s.tx.cache.sequence, ranges)
    ensures Core(isn, After(s, s.tx.SendRanges(ranges, env)))
    decreases |ranges|
  {
    if ranges == [] {
      AfterNothing(s);
    } else {
      SendRangeKeeps(isn, s, ranges[0], env);
      var first := s.tx.SendRange(ranges[0], env);
      if first.ok {
        SendRangesKeeps(isn, After(s, first), ranges[1..], env);
        AfterTwice(s, first, first.tx.SendRanges(ranges[1..], env));
      }
    }
  }

  lemma AfterNothing(s: Sender)
    ensures forall ok :: After(s, Out(s.tx, [], ok)) == s.(finished := s.finished || s.tx.cacheFin.Some?)
  {
    assert s.log + [] == s.log;
  }

  /** Two operations in a row that leave the FIN alone are one that sends both lists of frames. */
  lemma AfterTwice(s: Sender, a: Out, b: Out)
    requires a.tx.cacheFin == s.tx.cacheFin && b.tx.cacheFin == s.tx.cacheFin
    ensures After(After(s, a), b) == After(s, Out(b.tx, a.frames + b.frames, b.ok))
  {
    assert (s.log + a.frames) + b.frames == s.log + (a.frames + b.frames);
  }

  lemma SelectiveRetransmitKeeps(isn: u32, s: Sender, blocks: seq<Range>, env: Env)
    requires Core(isn, s) && s.tx.cacheSyn.None? && 0 < env.mss && Allowed(isn, s, SelectiveRetransmit(blocks))
    ensures Core(isn, Step(s, SelectiveRetransmit(blocks), env))
  {
    var whole := (s.tx.cache.sequence, s.tx.cache.RecvNext());
    var ranges := SubtractAll([whole], blocks);
    SubtractStarts(s.tx.cache.sequence, [whole], blocks);
    SendRangesKeeps(isn, s, ranges, env);
    var sent := s.tx.SendRanges(ranges, env);
    var fin := [sent.tx.FinFrame(env)];
    LogGrows(isn, s.stream, s.log + sent.frames, fin);
    assert (s.log + sent.frames) + fin == s.log + (sent.frames + fin);
  }

  // ---------------------------------------------------------------------------------------------
  // Every step
  // ---------------------------------------------------------------------------------------------

  lemma ReplyKeeps(isn: u32, s: Sender, acknowledgement: u32, window: nat, env: Env)
    requires Core(isn, s) && 0 < env.mss
    ensures Core(isn, Step(s, Reply(acknowledgement, window), env))
  {
    LogGrows(isn, s.stream, s.log, React(s.tx, Reply(acknowledgement, window), env).frames);
  }

  lemma SetSacksKeeps(isn: u32, s: Sender, filled: seq<Range>, env: Env)
    requires Core(isn, s) && 0 < env.mss
    ensures Core(isn, Step(s, SetSacks(filled), env))
  {
    assert s.log + [] == s.log;
  }

  lemma {:induction false} SendRangesFromEmpty(tx: Tx, ranges: seq<Range>, env: Env)
    requires tx.WellSized() && tx.cache.bytes == [] && 0 < env.mss
    ensures tx.SendRanges(ranges, env).tx == tx && tx.SendRanges(ranges, env).frames == []
    decreases |ranges|
  {
    if ranges != [] {
      SendRangesFromEmpty(tx, ranges[1..], env);
    }
  }

  lemma SelectiveWhileOpening(isn: u32, s: Sender, blocks: seq<Range>, env: Env)
    requires Core(isn, s) && s.tx.cacheSyn.Some? && 0 < env.mss
    ensures Core(isn, Step(s, SelectiveRetransmit(blocks), env))
  {
    SendRangesFromEmpty(s.tx, SubtractAll([(s.tx.cache.sequence, s.tx.cache.RecvNext())], blocks), env);
    assert s.log + [] == s.log;
  }

  /** Every region under the mutex keeps the invariant. */
  lemma CoreKeeps(isn: u32, s: Sender, e: Event, env: Env)
    requires Core(isn, s) && 0 < env.mss && Allowed(isn, s, e)
    ensures Core(isn, Step(s, e, env))
  {
    match e {
      case Forward(payload) => ForwardKeeps(isn, s, payload, env);
      case Close => CloseKeeps(isn, s, env);
      case Tick => TickKeeps(isn, s, env);
      case Acknowledge(ack, sendWindow) => AckKeeps(isn, s, ack, sendWindow, env);
      case FastRetransmit => FastRetransmitKeeps(isn, s, env);
      case SelectiveRetransmit(blocks) =>
        if s.tx.cacheSyn.Some? {
          SelectiveWhileOpening(isn, s, blocks, env);
        } else {
          SelectiveRetransmitKeeps(isn, s, blocks, env);
        }
      case SendMore =>
        SendTcpAckKeeps(isn, s, env);
        assert Step(s, SendMore, env) == After(s, s.tx.SendTcpAck(env));
      case SetSacks(filled) => SetSacksKeeps(isn, s, filled, env);
      case Reply(acknowledgement, window) => ReplyKeeps(isn, s, acknowledgement, window, env);
    }
  }
}
