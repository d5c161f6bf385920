/**
 * One whole connection: the redirector's handling of arriving segments (src/lib.rs:1454-1580,
 * src/lib.rs:1837-1989, src/lib.rs:2079-2145), interleaved with the stream worker's forwards,
 * ticks and close at every point where the redirector does not hold the `Forwarder` mutex.
 *
 * A connection is a `Sender`, a `Receiver` and the redirector's own state; `phase` says where in
 * the handling of a segment the redirector is. Private work of the redirector (appending to the
 * receive window) is taken together with the mutex region that follows it.
 */
module Connection {
  import opened Basics
  import opened SequenceNumbers
  import opened WindowSpec
  import opened Reassembly
  import opened SequenceRanges
  import opened Transmit
  import SenderSteps
  import SenderRun
  import SenderFacts

  const DUPLICATES_THRESHOLD: nat := 3
  const RETRANS_COOL_DOWN: nat := 200
  const MAX_RECV_WSCALE: nat := 8

  /** The fields of a TCP segment from the source that the handlers read. */
  datatype Segment = Segment(
    sequence: u32, acknowledgement: u32, window: nat, fin: bool, blocks: seq<Range>, payload: seq<byte>)

  /** Where the redirector is: between segments, or between two mutex regions of one. */
  datatype Phase =
    | Idle
    | Acknowledged(seg: Segment)
    | Appended(seg: Segment, payload: Option<seq<byte>>)
    | Replied(seg: Segment)
    | CheckFin(seg: Segment)
    | Gone
    | Crashed

  /** `TcpRxState` without its window, which is in the receiver. */
  datatype Rx = Rx(
    recvNext: u32,
    lastAcknowledgement: u32,
    duplicate: nat,
    lastRetrans: Option<nat>,
    wscale: nat,
    sackPerm: bool,
    finSequence: Option<u32>)
  {
    /** Counts duplicates; the result says whether to retransmit fast. */
    function IncreaseDuplicate(acknowledgement: u32, now: nat): (Rx, bool) {
      if lastAcknowledgement == acknowledgement then
        var coolingDown := lastRetrans.Some? && now < lastRetrans.value + RETRANS_COOL_DOWN;
        (this.(duplicate := duplicate + 1), duplicate + 1 >= DUPLICATES_THRESHOLD && !coolingDown)
      else (this.(duplicate := 0, lastAcknowledgement := acknowledgement), false)
    }
  }

  /** `out` is what the SOCKS stream was given, `fins` how many FINs were admitted. */
  datatype Conn = Conn(snd: SenderSteps.Sender, rcv: Receiver, rx: Rx, phase: Phase, out: seq<byte>, fins: nat)

  /**
   * `Arrive` starts the handling of a segment, `Proceed` runs its next region; `choice` is the
   * outcome the redirector does not control there: writing side open, stream write succeeded,
   * reading side open. The others are the worker's.
   */
  datatype Event =
    | Arrive(seg: Segment, ackFlag: bool)
    | Proceed(choice: bool)
    | Forward(payload: seq<byte>)
    | Tick
    | Close

  /** The window to advertise: what remains, scaled, as 16 bits. */
  function Advertised(w: WindowState, wscale: nat): nat
    requires w.Ok()
  {
    w.Remaining() / SenderFacts.Power2(wscale) % 0x1_0000
  }

  /** A step of the sending side. */
  function Send(c: Conn, e: SenderSteps.Event, env: Env): Conn
    requires c.snd.tx.cache.Ok() && 0 < env.mss
  {
    c.(snd := SenderSteps.Step(c.snd, e, env))
  }

  function Step(c: Conn, e: Event, env: Env): Conn
    requires c.snd.tx.cache.Ok() && c.rcv.window.Ok() && 0 < env.mss
  {
    match e
    case Forward(payload) => Send(c, SenderSteps.Forward(payload), env)
    case Tick => Send(c, SenderSteps.Tick, env)
    case Close => Send(c, SenderSteps.Close, env)
    case Arrive(seg, ackFlag) =>
      if !c.phase.Idle? then c
      else if ackFlag then
        Send(c, SenderSteps.Acknowledge(seg.acknowledgement, seg.window * SenderFacts.Power2(c.rx.wscale)), env)
          .(phase := Acknowledged(seg))
      else c.(phase := CheckFin(seg))
    case Proceed(choice) =>
      match c.phase
      case Acknowledged(seg) => if seg.payload != [] then Append(c, seg, env) else AckOnly(c, seg, choice, env)
      case Appended(seg, payload) => Reply(c, seg, payload, choice, env)
      case Replied(seg) =>
        var ok := SenderSteps.React(c.snd.tx, SenderSteps.SendMore, env).ok;
        Send(c, SenderSteps.SendMore, env)
          .(phase := if ok && (seg.fin || c.rx.finSequence.Some?) then CheckFin(seg) else Idle)
      case CheckFin(seg) => HandleFin(c, seg, choice, env)
      case _ => c
  }

  /** Appends the payload to the window; a panic or a full window ends the handling. */
  function Append(c: Conn, seg: Segment, env: Env): Conn
    requires c.snd.tx.cache.Ok() && c.rcv.window.Ok() && 0 < env.mss && seg.payload != []
  {
    if |seg.payload| >= U32_MAX then c.(phase := Crashed) // longer than any frame
    else
      match c.rcv.window.Append(seg.sequence, seg.payload).1
      case Fault => c.(phase := Crashed)
      case Full => c.(phase := Idle)
      case Nothing => Note(c, seg, None, env)
      case Delivered(payload) => Note(c, seg, Some(payload), env)
  }

  /** Takes over the appended window and hands its filled ranges to the sending side. */
  function Note(c: Conn, seg: Segment, payload: Option<seq<byte>>, env: Env): Conn
    requires c.snd.tx.cache.Ok() && c.rcv.window.Ok() && 0 < env.mss && WindowSpec.Segment(seg.payload)
  {
    var rcv := Reassembly.Step(c.rcv, Arrival(seg.sequence, seg.payload));
    AppendKeepsOk(c.rcv.window, seg.sequence, seg.payload);
    var appended := c.(rcv := rcv, phase := Appended(seg, payload));
    if c.rx.sackPerm then Send(appended, SenderSteps.SetSacks(rcv.window.Filled()), env) else appended
  }

  /** Answers an appended segment once the stream took the bytes now in order. */
  function Reply(c: Conn, seg: Segment, payload: Option<seq<byte>>, written: bool, env: Env): Conn
    requires c.snd.tx.cache.Ok() && c.rcv.window.Ok() && 0 < env.mss
  {
    var window := Advertised(c.rcv.window, c.rx.wscale);
    match payload
    case None =>
      Send(c, SenderSteps.Reply(c.snd.tx.acknowledgement, window), env).(phase := Replied(seg))
    case Some(bytes) =>
      if !written then c.(phase := Gone)
      else
        var n := |bytes| % U32_SIZE;
        Send(c, SenderSteps.Reply(Add(c.snd.tx.acknowledgement, n), window), env)
          .(rx := c.rx.(recvNext := Add(c.rx.recvNext, n)), out := c.out + bytes, phase := Replied(seg))
  }

  /** A segment without payload: the last acknowledgement, or a duplicate to react to. */
  function AckOnly(c: Conn, seg: Segment, writable: bool, env: Env): Conn
    requires c.snd.tx.cache.Ok() && 0 < env.mss
  {
    if !writable && |c.snd.tx.cache.bytes| + |c.snd.tx.queue| == 0 then c.(phase := Gone)
    else
      var (rx, fast) := c.rx.IncreaseDuplicate(seg.acknowledgement, env.now);
      if fast && seg.window != 0 then
        var e := if rx.sackPerm && seg.blocks != [] then SenderSteps.SelectiveRetransmit(seg.blocks)
                 else SenderSteps.FastRetransmit;
        if SenderSteps.React(c.snd.tx, e, env).ok then
          Send(c, e, env).(rx := rx.(duplicate := 0, lastRetrans := Some(env.now)), phase := Replied(seg))
        else Send(c, e, env).(rx := rx, phase := Idle)
      else c.(rx := rx, phase := Replied(seg))
  }

  /** The FIN the redirector knows of after looking at the segment. */
  function KnownFin(c: Conn, seg: Segment): Option<u32> {
    if seg.fin then Some(Add(seg.sequence, |seg.payload| % U32_SIZE)) else c.rx.finSequence
  }

  /** Admits the FIN once everything before it has been delivered. */
  function HandleFin(c: Conn, seg: Segment, readable: bool, env: Env): Conn
    requires c.snd.tx.cache.Ok() && 0 < env.mss
  {
    var fin := KnownFin(c, seg);
    if fin == Some(c.rx.recvNext) then
      Send(c, SenderSteps.Reply(Add(c.snd.tx.acknowledgement, 1), c.snd.tx.window), env)
        .(rx := c.rx.(finSequence := None, recvNext := Add(c.rx.recvNext, 1)),
          fins := c.fins + 1, phase := if readable then Idle else Gone)
    else
      var waiting := c.(rx := c.rx.(finSequence := fin), phase := Idle);
      if fin.Some? && seg.payload == [] then
        Send(waiting, SenderSteps.Reply(c.snd.tx.acknowledgement, c.snd.tx.window), env)
      else waiting
  }

  // ---------------------------------------------------------------------------------------------
  // The invariant
  // ---------------------------------------------------------------------------------------------

  /** The SACK blocks to send for a window: the first four filled ranges. */
  function SacksOf(w: WindowState): Option<seq<Range>>
    requires w.Ok()
  {
    var filled := w.Filled();
    if filled == [] then None else Some(filled[..Min(4, |filled|)])
  }

  /** The payload of a segment is a slice of the peer's stream that its number identifies now. */
  ghost predicate SegmentOk(stream: seq<byte>, start: u32, base: nat, seg: Segment) {
    && (seg.payload != [] ==>
          exists pos :: SliceAt(stream, start, Arrival(seg.sequence, seg.payload), pos)
            && InSight(base, pos, |seg.payload|))
    && FinOk(stream, start, base, seg)
  }

  /** The peer's FIN follows its last byte. */
  ghost predicate FinOk(stream: seq<byte>, start: u32, base: nat, seg: Segment) {
    seg.fin ==>
      && |seg.payload| <= U32_MAX && |stream| < base + U32_MAX
      && exists pos: nat :: pos + |seg.payload| == |stream| && seg.sequence == SeqAt(start, pos)
  }

  /** The bytes popped from the window but not yet taken by the SOCKS stream. */
  ghost function Pending(phase: Phase): seq<byte> {
    if phase.Appended? && phase.payload.Some? then phase.payload.value else []
  }

  /** The bytes handed out: `stream` is what the peer sends, numbered from `start`. */
  ghost predicate StreamInv(stream: seq<byte>, start: u32, rcv: Receiver, phase: Phase, out: seq<byte>, fins: nat) {
    && Tracks(stream, start, rcv)
    && out <= rcv.out && (!phase.Gone? ==> rcv.out == out + Pending(phase))
    && |Pending(phase)| <= MAX_WINDOW && (phase.Appended? && phase.payload.Some? ==> Pending(phase) != [])
    && fins <= 1 && (fins == 1 ==> out == stream && Pending(phase) == [])
  }

  /** Numbers: what is acknowledged is what the stream took, and one more for an admitted FIN. */
  ghost predicate NumberInv(stream: seq<byte>, start: u32, rx: Rx, out: seq<byte>, fins: nat, acknowledgement: u32) {
    && acknowledgement == rx.recvNext == SeqAt(start, |out| + fins)
    && (rx.finSequence.Some? ==> rx.finSequence.value == SeqAt(start, |stream|) && |stream| < |out| + U32_MAX)
  }

  /** The segment being handled is still what it was when it arrived. */
  ghost predicate PhaseInv(stream: seq<byte>, start: u32, rcv: Receiver, phase: Phase) {
    && (phase.Acknowledged? ==> SegmentOk(stream, start, |rcv.out|, phase.seg))
    && (phase.Appended? || phase.Replied? || phase.CheckFin? ==> FinOk(stream, start, |rcv.out|, phase.seg))
  }

  ghost predicate SackInv(rcv: Receiver, rx: Rx, sacks: Option<seq<Range>>)
    requires rcv.window.Ok()
  {
    rx.sackPerm ==> sacks == SacksOf(rcv.window)
  }

  ghost predicate RxInv(stream: seq<byte>, start: u32, c: Conn) {
    && StreamInv(stream, start, c.rcv, c.phase, c.out, c.fins)
    && NumberInv(stream, start, c.rx, c.out, c.fins, c.snd.tx.acknowledgement)
    && PhaseInv(stream, start, c.rcv, c.phase)
    && SackInv(c.rcv, c.rx, c.snd.tx.sacks)
  }

  ghost predicate Inv(isn: u32, stream: seq<byte>, start: u32, c: Conn) {
    && SenderRun.Inv(isn, c.snd)
    && c.snd.tx.cache.capacity == RECV_WINDOW * SenderFacts.Power2(c.rx.wscale)
    && c.rcv.window.capacity == c.snd.tx.cache.capacity
    && RxInv(stream, start, c)
  }

  /** What the peer and the worker may do: as on the two sides taken alone. */
  ghost predicate Allowed(isn: u32, stream: seq<byte>, start: u32, c: Conn, e: Event) {
    match e
    case Forward(payload) => SenderSteps.Allowed(isn, c.snd, SenderSteps.Forward(payload))
    case Tick => true
    case Close => SenderSteps.Allowed(isn, c.snd, SenderSteps.Close)
    case Arrive(seg, _) =>
      && SegmentOk(stream, start, |c.rcv.out|, seg)
      && SenderSteps.AllowedAck(isn, c.snd, seg.acknowledgement) && seg.window <= U16_MAX
      && forall i :: 0 <= i < |seg.blocks| ==> seg.blocks[i].1 > 0
    case Proceed(_) =>
      && (c.phase.Replied? ==> !SenderSteps.FinOvertakes(c.snd.tx))
      && (c.phase.Acknowledged? ==> forall i :: 0 <= i < |c.phase.seg.blocks| ==> c.phase.seg.blocks[i].1 > 0)
  }

  // ---------------------------------------------------------------------------------------------
  // What the sending side leaves alone
  // ---------------------------------------------------------------------------------------------

  /** Sending operations never touch what the receiving side reports. */
  ghost predicate SameReport(tx: Tx, tx': Tx) {
    tx'.acknowledgement == tx.acknowledgement && tx'.sacks == tx.sacks && tx'.cache.capacity == tx.cache.capacity
  }

  lemma SendTcpAckReports(tx: Tx, env: Env)
    requires tx.WellSized() && 0 < env.mss
    ensures SameReport(tx, tx.SendTcpAck(env).tx)
  {
  }

  lemma SendReports(snd: SenderSteps.Sender, e: SenderSteps.Event, env: Env)
    requires snd.tx.cache.Ok() && 0 < env.mss && !e.SetSacks? && !e.Reply?
    ensures SameReport(snd.tx, SenderSteps.Step(snd, e, env).tx)
  {
    match e {
      case Forward(payload) => SendTcpAckReports(snd.tx.(queue := snd.tx.queue + payload), env);
      case Close => SendTcpAckReports(snd.tx.(queueFin := true), env);
      case SendMore => SendTcpAckReports(snd.tx, env);
      case Tick => TickReports(snd.tx, env);
      case Acknowledge(ack, _) => AcknowledgeReports(snd.tx, ack, env.now);
      case FastRetransmit =>
      case SelectiveRetransmit(_) =>
    }
  }

  lemma TickReports(tx: Tx, env: Env)
    requires tx.cache.Ok() && 0 < env.mss
    ensures SameReport(tx, tx.Tick(env).tx)
  {
  }

  lemma AcknowledgeReports(tx: Tx, ack: u32, now: nat)
    requires tx.WellSized()
    ensures SameReport(tx, tx.Acknowledge(ack, now))
  {
  }

  // ---------------------------------------------------------------------------------------------
  // The receiving side, piece by piece
  // ---------------------------------------------------------------------------------------------

  /** Appending a slice: the window advances by exactly the bytes that become pending. */
  lemma AppendStream(stream: seq<byte>, start: u32, rcv: Receiver, out: seq<byte>, fins: nat, seg: Segment)
    requires StreamInv(stream, start, rcv, Acknowledged(seg), out, fins) && seg.payload != []
    requires SegmentOk(stream, start, |rcv.out|, seg)
    ensures WindowSpec.Segment(seg.payload)
    ensures
      var rcv' := Reassembly.Step(rcv, Arrival(seg.sequence, seg.payload));
      var outcome := rcv.window.Append(seg.sequence, seg.payload).1;
      && |rcv.out| <= |rcv'.out|
      && (outcome.Delivered? ==> StreamInv(stream, start, rcv', Appended(seg, Some(outcome.payload)), out, fins))
      && (outcome.Nothing? ==> StreamInv(stream, start, rcv', Appended(seg, None), out, fins))
  {
    var a := Arrival(seg.sequence, seg.payload);
    var pos :| SliceAt(stream, start, a, pos) && InSight(|rcv.out|, pos, |seg.payload|);
    StepTracks(stream, start, rcv, a, pos);
    DeliveredBound(rcv.window, seg.sequence, seg.payload);
    AppendedStream(stream, start, rcv, out, fins, seg, Reassembly.Step(rcv, a),
                   rcv.window.Append(seg.sequence, seg.payload).1);
  }

  lemma AppendedStream(stream: seq<byte>, start: u32, rcv: Receiver, out: seq<byte>, fins: nat, seg: Segment,
                       rcv': Receiver, outcome: Outcome)
    requires StreamInv(stream, start, rcv, Acknowledged(seg), out, fins) && Tracks(stream, start, rcv')
    requires outcome.Delivered? ==> 0 < |outcome.payload| <= MAX_WINDOW
    requires rcv'.out == if outcome.Delivered? then rcv.out + outcome.payload else rcv.out
    ensures outcome.Delivered? ==> StreamInv(stream, start, rcv', Appended(seg, Some(outcome.payload)), out, fins)
    ensures !outcome.Delivered? ==> StreamInv(stream, start, rcv', Appended(seg, None), out, fins)
  {
    TracksMeans(stream, start, rcv');
    assert rcv.out == out + [] == out;
    if outcome.Delivered? {
      assert rcv'.out == out + outcome.payload && out <= rcv'.out;
    }
  }

  lemma DeliveredBound(w: WindowState, seqNo: u32, payload: seq<byte>)
    requires w.Ok() && WindowSpec.Segment(payload)
    ensures
      var outcome := w.Append(seqNo, payload).1;
      outcome.Delivered? ==> 0 < |outcome.payload| <= MAX_WINDOW
  {
    var place := Locate(w.sequence, seqNo, payload);
    if place.Take? && place.at + |place.body| <= w.capacity {
      AcceptHandsOut(w, place.at, place.body);
    }
  }

  /** Delivering the pending bytes moves both numbers by their count. */
  lemma DeliverNumbers(stream: seq<byte>, start: u32, rx: Rx, out: seq<byte>, bytes: seq<byte>, acknowledgement: u32)
    requires NumberInv(stream, start, rx, out, 0, acknowledgement) && |bytes| <= MAX_WINDOW
    ensures
      var rx' := rx.(recvNext := Add(rx.recvNext, |bytes|));
      NumberInv(stream, start, rx', out + bytes, 0, Add(acknowledgement, |bytes|))
  {
    SeqAtStep(start, |out|, |bytes|);
  }

  /** The FIN's number equals the next expected one exactly when all bytes were delivered and it is the first. */
  lemma FinDueIff(stream: seq<byte>, start: u32, out: seq<byte>, fins: nat)
    requires out <= stream && |stream| < |out| + U32_MAX && fins <= 1 && (fins == 1 ==> out == stream)
    ensures SeqAt(start, |stream|) == SeqAt(start, |out| + fins) <==> out == stream && fins == 0
  {
    Distance(start, |out| + fins, |stream|);
  }

  /** A FIN segment names the position after the last byte. */
  lemma FinNumber(stream: seq<byte>, start: u32, base: nat, seg: Segment)
    requires FinOk(stream, start, base, seg) && seg.fin
    ensures Add(seg.sequence, |seg.payload| % U32_SIZE) == SeqAt(start, |stream|)
  {
    var pos: nat :| pos + |seg.payload| == |stream| && seg.sequence == SeqAt(start, pos);
    var n, end := |seg.payload|, |stream|;
    assert SeqAt(start, end) == Add(seg.sequence, n) by {
      SeqAtStep(start, pos, n);
    }
    assert n % U32_SIZE == n;
  }

  // ---------------------------------------------------------------------------------------------
  // Every step keeps the invariant
  // ---------------------------------------------------------------------------------------------

  /** A sending operation, at whatever point of the redirector's work. */
  lemma SendKeeps(isn: u32, stream: seq<byte>, start: u32, c: Conn, e: SenderSteps.Event, env: Env)
    requires Inv(isn, stream, start, c) && 0 < env.mss && SenderSteps.Allowed(isn, c.snd, e)
    requires !e.SetSacks? && !e.Reply?
    ensures Inv(isn, stream, start, Send(c, e, env))
  {
    SenderRun.StepKeeps(isn, c.snd, e, env);
    SendReports(c.snd, e, env);
  }

  lemma ArriveKeeps(isn: u32, stream: seq<byte>, start: u32, c: Conn, seg: Segment, ackFlag: bool, env: Env)
    requires Inv(isn, stream, start, c) && 0 < env.mss && Allowed(isn, stream, start, c, Arrive(seg, ackFlag))
    ensures Inv(isn, stream, start, Step(c, Arrive(seg, ackFlag), env))
  {
    if c.phase.Idle? && ackFlag {
      SenderFacts.WindowFitsCache(seg.window, c.rx.wscale, 0);
      SendKeeps(isn, stream, start, c,
                SenderSteps.Acknowledge(seg.acknowledgement, seg.window * SenderFacts.Power2(c.rx.wscale)), env);
    }
  }

  lemma NoteKeeps(isn: u32, stream: seq<byte>, start: u32, c: Conn, seg: Segment, payload: Option<seq<byte>>, env: Env)
    requires Inv(isn, stream, start, c) && 0 < env.mss && c.phase == Acknowledged(seg)
             && WindowSpec.Segment(seg.payload)
    requires
      var rcv := Reassembly.Step(c.rcv, Arrival(seg.sequence, seg.payload));
      StreamInv(stream, start, rcv, Appended(seg, payload), c.out, c.fins) && |c.rcv.out| <= |rcv.out|
    ensures Inv(isn, stream, start, Note(c, seg, payload, env))
  {
    var rcv := Reassembly.Step(c.rcv, Arrival(seg.sequence, seg.payload));
    assert FinOk(stream, start, |rcv.out|, seg);
    if c.rx.sackPerm {
      SetSacksSends(isn, c.snd, rcv.window, env);
    }
  }

  /** What handing over the filled ranges changes on the sending side. */
  lemma SetSacksSends(isn: u32, snd: SenderSteps.Sender, w: WindowState, env: Env)
    requires SenderRun.Inv(isn, snd) && 0 < env.mss && w.Ok()
    ensures
      var snd' := SenderSteps.Step(snd, SenderSteps.SetSacks(w.Filled()), env);
      && SenderRun.Inv(isn, snd')
      && snd'.tx.sacks == SacksOf(w)
      && snd'.tx.acknowledgement == snd.tx.acknowledgement && snd'.tx.cache == snd.tx.cache
  {
    SenderRun.StepKeeps(isn, snd, SenderSteps.SetSacks(w.Filled()), env);
  }

  lemma AppendKeeps(isn: u32, stream: seq<byte>, start: u32, c: Conn, seg: Segment, env: Env)
    requires Inv(isn, stream, start, c) && 0 < env.mss && c.phase == Acknowledged(seg) && seg.payload != []
    ensures Inv(isn, stream, start, Append(c, seg, env))
  {
    AppendStream(stream, start, c.rcv, c.out, c.fins, seg);
    match c.rcv.window.Append(seg.sequence, seg.payload).1 {
      case Fault =>
      case Full =>
      case Nothing => NoteKeeps(isn, stream, start, c, seg, None, env);
      case Delivered(payload) => NoteKeeps(isn, stream, start, c, seg, Some(payload), env);
    }
  }

  /** What a reply changes on the sending side. */
  lemma ReplySends(isn: u32, snd: SenderSteps.Sender, acknowledgement: u32, window: nat, env: Env)
    requires SenderRun.Inv(isn, snd) && 0 < env.mss
    ensures
      var snd' := SenderSteps.Step(snd, SenderSteps.Reply(acknowledgement, window), env);
      && SenderRun.Inv(isn, snd')
      && snd'.tx.acknowledgement == acknowledgement
      && snd'.tx.sacks == snd.tx.sacks && snd'.tx.cache == snd.tx.cache
  {
    SenderRun.StepKeeps(isn, snd, SenderSteps.Reply(acknowledgement, window), env);
  }

  lemma DeliverKeeps(stream: seq<byte>, start: u32, rcv: Receiver, out: seq<byte>, fins: nat, seg: Segment,
                     bytes: seq<byte>)
    requires StreamInv(stream, start, rcv, Appended(seg, Some(bytes)), out, fins)
    ensures fins == 0 && StreamInv(stream, start, rcv, Replied(seg), out + bytes, 0)
  {
    assert (out + bytes) + [] == out + bytes;
  }

  lemma ReplyKeeps(isn: u32, stream: seq<byte>, start: u32, c: Conn, seg: Segment, payload: Option<seq<byte>>,
                   written: bool, env: Env)
    requires Inv(isn, stream, start, c) && 0 < env.mss && c.phase == Appended(seg, payload)
    ensures Inv(isn, stream, start, Reply(c, seg, payload, written, env))
  {
    match payload {
      case None =>
        ReplySends(isn, c.snd, c.snd.tx.acknowledgement, Advertised(c.rcv.window, c.rx.wscale), env);
      case Some(bytes) =>
        if written {
          WrittenKeeps(isn, stream, start, c, seg, bytes, env);
        }
    }
  }

  lemma WrittenKeeps(isn: u32, stream: seq<byte>, start: u32, c: Conn, seg: Segment, bytes: seq<byte>, env: Env)
    requires Inv(isn, stream, start, c) && 0 < env.mss && c.phase == Appended(seg, Some(bytes))
    ensures Inv(isn, stream, start, Reply(c, seg, Some(bytes), true, env))
  {
    var n := |bytes|;
    DeliverKeeps(stream, start, c.rcv, c.out, c.fins, seg, bytes);
    DeliverNumbers(stream, start, c.rx, c.out, bytes, c.snd.tx.acknowledgement);
    assert n % U32_SIZE == n;
    var reply := SenderSteps.Reply(Add(c.snd.tx.acknowledgement, n), Advertised(c.rcv.window, c.rx.wscale));
    ReplySends(isn, c.snd, reply.acknowledgement, reply.window, env);
    WrittenJoins(isn, stream, start, c, seg, bytes, SenderSteps.Step(c.snd, reply, env));
  }

  lemma WrittenJoins(isn: u32, stream: seq<byte>, start: u32, c: Conn, seg: Segment, bytes: seq<byte>,
                     snd: SenderSteps.Sender)
    requires Inv(isn, stream, start, c) && c.phase == Appended(seg, Some(bytes)) && c.fins == 0 && |bytes| <= U32_MAX
    requires StreamInv(stream, start, c.rcv, Replied(seg), c.out + bytes, 0)
    requires
      var rx := c.rx.(recvNext := Add(c.rx.recvNext, |bytes|));
      NumberInv(stream, start, rx, c.out + bytes, 0, snd.tx.acknowledgement)
    requires SenderRun.Inv(isn, snd) && snd.tx.sacks == c.snd.tx.sacks && snd.tx.cache == c.snd.tx.cache
    ensures Inv(isn, stream, start,
                c.(snd := snd, rx := c.rx.(recvNext := Add(c.rx.recvNext, |bytes|)), out := c.out + bytes,
                  phase := Replied(seg)))
  {
  }

  /** Counting duplicates and moving on to the next region. */
  lemma MoveOnKeeps(isn: u32, stream: seq<byte>, start: u32, c: Conn, seg: Segment, rx: Rx, phase: Phase)
    requires Inv(isn, stream, start, c) && c.phase == Acknowledged(seg) && phase in {Replied(seg), Idle, Gone}
    requires rx == c.rx.(duplicate := rx.duplicate, lastAcknowledgement := rx.lastAcknowledgement,
                         lastRetrans := rx.lastRetrans)
    ensures Inv(isn, stream, start, c.(rx := rx, phase := phase))
  {
    assert c.out + Pending(phase) == c.out + Pending(c.phase);
  }

  lemma AckOnlyKeeps(isn: u32, stream: seq<byte>, start: u32, c: Conn, seg: Segment, writable: bool, env: Env)
    requires Inv(isn, stream, start, c) && 0 < env.mss && c.phase == Acknowledged(seg)
    requires forall i :: 0 <= i < |seg.blocks| ==> seg.blocks[i].1 > 0
    ensures Inv(isn, stream, start, AckOnly(c, seg, writable, env))
  {
    var (rx, fast) := c.rx.IncreaseDuplicate(seg.acknowledgement, env.now);
    if !writable && |c.snd.tx.cache.bytes| + |c.snd.tx.queue| == 0 {
      MoveOnKeeps(isn, stream, start, c, seg, c.rx, Gone);
    } else if fast && seg.window != 0 {
      var e := if rx.sackPerm && seg.blocks != [] then SenderSteps.SelectiveRetransmit(seg.blocks)
               else SenderSteps.FastRetransmit;
      SendKeeps(isn, stream, start, c, e, env);
      var cleared := rx.(duplicate := 0, lastRetrans := Some(env.now));
      MoveOnKeeps(isn, stream, start, Send(c, e, env), seg, cleared, Replied(seg));
      MoveOnKeeps(isn, stream, start, Send(c, e, env), seg, rx, Idle);
    } else {
      MoveOnKeeps(isn, stream, start, c, seg, rx, Replied(seg));
    }
  }

  lemma KnownFinNumber(stream: seq<byte>, start: u32, c: Conn, seg: Segment)
    requires RxInv(stream, start, c) && c.phase == CheckFin(seg)
    ensures
      var fin := KnownFin(c, seg);
      && c.rcv.out == c.out && c.out <= stream
      && (fin.Some? ==>
            && fin.value == SeqAt(start, |stream|) && |stream| < |c.out| + U32_MAX
            && (fin.value == c.rx.recvNext <==> c.out == stream && c.fins == 0))
  {
    assert c.rcv.out == c.out + [] == c.out;
    TracksMeans(stream, start, c.rcv);
    if seg.fin {
      FinNumber(stream, start, |c.rcv.out|, seg);
    }
    if KnownFin(c, seg).Some? {
      FinDueIff(stream, start, c.out, c.fins);
    }
  }

  lemma AdmitKeeps(isn: u32, stream: seq<byte>, start: u32, c: Conn, seg: Segment, readable: bool, env: Env)
    requires Inv(isn, stream, start, c) && 0 < env.mss && c.phase == CheckFin(seg)
    requires KnownFin(c, seg) == Some(c.rx.recvNext)
    ensures Inv(isn, stream, start, HandleFin(c, seg, readable, env))
  {
    KnownFinNumber(stream, start, c, seg);
    ReplySends(isn, c.snd, Add(c.snd.tx.acknowledgement, 1), c.snd.tx.window, env);
    SeqAtStep(start, |c.out|, 1);
  }

  lemma WaitKeeps(isn: u32, stream: seq<byte>, start: u32, c: Conn, seg: Segment, readable: bool, env: Env)
    requires Inv(isn, stream, start, c) && 0 < env.mss && c.phase == CheckFin(seg)
    requires KnownFin(c, seg) != Some(c.rx.recvNext)
    ensures Inv(isn, stream, start, HandleFin(c, seg, readable, env))
  {
    KnownFinNumber(stream, start, c, seg);
    WaitRx(isn, stream, start, c, seg);
    var waiting := c.(rx := c.rx.(finSequence := KnownFin(c, seg)), phase := Idle);
    ReplySends(isn, c.snd, c.snd.tx.acknowledgement, c.snd.tx.window, env);
    SameRx(isn, stream, start, waiting,
           SenderSteps.Step(c.snd, SenderSteps.Reply(c.snd.tx.acknowledgement, c.snd.tx.window), env));
  }

  lemma WaitRx(isn: u32, stream: seq<byte>, start: u32, c: Conn, seg: Segment)
    requires Inv(isn, stream, start, c) && c.phase == CheckFin(seg)
    requires
      var fin := KnownFin(c, seg);
      fin.Some? ==> fin.value == SeqAt(start, |stream|) && |stream| < |c.out| + U32_MAX
    ensures Inv(isn, stream, start, c.(rx := c.rx.(finSequence := KnownFin(c, seg)), phase := Idle))
  {
  }

  /** The receiving side does not depend on more of the sending side than this. */
  lemma SameRx(isn: u32, stream: seq<byte>, start: u32, c: Conn, snd: SenderSteps.Sender)
    requires Inv(isn, stream, start, c) && SenderRun.Inv(isn, snd)
    requires snd.tx.acknowledgement == c.snd.tx.acknowledgement && snd.tx.sacks == c.snd.tx.sacks
             && snd.tx.cache == c.snd.tx.cache
    ensures Inv(isn, stream, start, c.(snd := snd))
  {
  }

  /** A known FIN is admitted exactly when all bytes before it were delivered and none was admitted yet. */
  lemma HandleFinKeeps(isn: u32, stream: seq<byte>, start: u32, c: Conn, seg: Segment, readable: bool, env: Env)
    requires Inv(isn, stream, start, c) && 0 < env.mss && c.phase == CheckFin(seg)
    ensures Inv(isn, stream, start, HandleFin(c, seg, readable, env))
    ensures HandleFin(c, seg, readable, env).fins
         == if KnownFin(c, seg).Some? && c.out == stream && c.fins == 0 then 1 else c.fins
  {
    KnownFinNumber(stream, start, c, seg);
    if KnownFin(c, seg) == Some(c.rx.recvNext) {
      AdmitKeeps(isn, stream, start, c, seg, readable, env);
    } else {
      WaitKeeps(isn, stream, start, c, seg, readable, env);
    }
  }

  /** Every region, of the redirector or of the worker, keeps the invariant. */
  lemma StepKeeps(isn: u32, stream: seq<byte>, start: u32, c: Conn, e: Event, env: Env)
    requires Inv(isn, stream, start, c) && 0 < env.mss && Allowed(isn, stream, start, c, e)
    ensures Inv(isn, stream, start, Step(c, e, env))
  {
    match e {
      case Forward(payload) => SendKeeps(isn, stream, start, c, SenderSteps.Forward(payload), env);
      case Tick => SendKeeps(isn, stream, start, c, SenderSteps.Tick, env);
      case Close => SendKeeps(isn, stream, start, c, SenderSteps.Close, env);
      case Arrive(seg, ackFlag) => ArriveKeeps(isn, stream, start, c, seg, ackFlag, env);
      case Proceed(choice) => ProceedKeeps(isn, stream, start, c, choice, env);
    }
  }

  lemma ProceedKeeps(isn: u32, stream: seq<byte>, start: u32, c: Conn, choice: bool, env: Env)
    requires Inv(isn, stream, start, c) && 0 < env.mss && Allowed(isn, stream, start, c, Proceed(choice))
    ensures Inv(isn, stream, start, Step(c, Proceed(choice), env))
  {
    match c.phase {
      case Acknowledged(seg) =>
        if seg.payload != [] {
          AppendKeeps(isn, stream, start, c, seg, env);
        } else {
          AckOnlyKeeps(isn, stream, start, c, seg, choice, env);
        }
      case Appended(seg, payload) => ReplyKeeps(isn, stream, start, c, seg, payload, choice, env);
      case Replied(seg) => SendMoreKeeps(isn, stream, start, c, seg, choice, env);
      case CheckFin(seg) => HandleFinKeeps(isn, stream, start, c, seg, choice, env);
      case Idle =>
      case Gone =>
      case Crashed =>
    }
  }

  lemma SendMoreKeeps(isn: u32, stream: seq<byte>, start: u32, c: Conn, seg: Segment, choice: bool, env: Env)
    requires Inv(isn, stream, start, c) && 0 < env.mss && c.phase == Replied(seg) && !SenderSteps.FinOvertakes(c.snd.tx)
    ensures Inv(isn, stream, start, Step(c, Proceed(choice), env))
  {
    SendKeeps(isn, stream, start, c, SenderSteps.SendMore, env);
    assert c.out + Pending(Idle) == c.out + Pending(c.phase) == c.out + Pending(CheckFin(seg));
  }

  // ---------------------------------------------------------------------------------------------
  // Runs
  // ---------------------------------------------------------------------------------------------

  ghost predicate AllowedRun(isn: u32, stream: seq<byte>, start: u32, c: Conn, events: seq<(Event, Env)>)
    requires Inv(isn, stream, start, c)
    decreases |events|
  {
    events == [] ||
    (&& 0 < events[0].1.mss && Allowed(isn, stream, start, c, events[0].0)
     && (StepKeeps(isn, stream, start, c, events[0].0, events[0].1);
         AllowedRun(isn, stream, start, Step(c, events[0].0, events[0].1), events[1..])))
  }

  /** Where a run leads; the invariant holds there. */
  ghost function Run(isn: u32, stream: seq<byte>, start: u32, c: Conn, events: seq<(Event, Env)>): (r: Conn)
    requires Inv(isn, stream, start, c) && AllowedRun(isn, stream, start, c, events)
    ensures Inv(isn, stream, start, r)
    decreases |events|
  {
    if events == [] then c
    else
      StepKeeps(isn, stream, start, c, events[0].0, events[0].1);
      Run(isn, stream, start, Step(c, events[0].0, events[0].1), events[1..])
  }

  /**
   * A connection whose SYN was just answered (src/lib.rs:1991-2066): the peer's next number is
   * `start`, both windows have the peer's scale.
   */
  function Opened(isn: u32, start: u32, sendWindow: nat, capacity: nat, wscale: nat, sackPerm: bool, now: nat): Conn
  {
    Conn(SenderRun.Opened(isn, start, sendWindow, capacity, now), Fresh(capacity, start),
         Rx(start, 0, 0, None, wscale, sackPerm, None), Idle, [], 0)
  }

  /**
   * The invariant holds from the start exactly for scales up to 8. The first window the peer
   * reports is scaled by at most 8, the capacities by the scale as it came.
   */
  lemma OpenedInvIff(isn: u32, stream: seq<byte>, start: u32, window: nat, wscale: nat, sackPerm: bool,
                     now: nat, sendWindow: nat, capacity: nat)
    requires window <= U16_MAX && sendWindow == window * SenderFacts.Power2(Min(wscale, MAX_RECV_WSCALE))
    requires capacity == RECV_WINDOW * SenderFacts.Power2(wscale)
    ensures Inv(isn, stream, start, Opened(isn, start, sendWindow, capacity, wscale, sackPerm, now)) <==>
            wscale <= MAX_RECV_WSCALE
  {
    SenderFacts.WindowFitsCache(window, wscale, Min(wscale, MAX_RECV_WSCALE));
    if wscale <= MAX_RECV_WSCALE {
      OpenedRx(isn, stream, start, sendWindow, capacity, wscale, sackPerm, now);
    }
  }

  lemma OpenedRx(isn: u32, stream: seq<byte>, start: u32, sendWindow: nat, capacity: nat, wscale: nat,
                 sackPerm: bool, now: nat)
    requires sendWindow <= capacity < MAX_WINDOW
    ensures RxInv(stream, start, Opened(isn, start, sendWindow, capacity, wscale, sackPerm, now))
  {
    FreshTracks(stream, start, capacity);
    IdleRx(stream, start, Opened(isn, start, sendWindow, capacity, wscale, sackPerm, now));
  }

  lemma IdleRx(stream: seq<byte>, start: u32, c: Conn)
    requires Tracks(stream, start, c.rcv) && c.rcv.out == [] && c.rcv.window.size == 0
    requires c.snd.tx.acknowledgement == c.rx.recvNext == start && c.snd.tx.sacks == None && c.rx.finSequence == None
    requires c.phase == Idle && c.out == [] && c.fins == 0
    ensures RxInv(stream, start, c)
  {
    assert c.rcv.window.Runs() == [];
    assert c.out + Pending(c.phase) == [];
  }

  /**
   * What holds in every reachable state, at every interleaving point:
   * - the SOCKS stream has been given exactly a prefix of what the peer sent;
   * - the number acknowledged to the peer is the redirector's next expected one, and it is the
   *   window's base, less what is being written to the stream, plus one after the FIN;
   * - a FIN is admitted at most once, and only after every byte was delivered;
   * - the SACK blocks kept for sending are the first at most four filled ranges of the window.
   */
  lemma RunReceives(isn: u32, stream: seq<byte>, start: u32, c: Conn, events: seq<(Event, Env)>)
    requires Inv(isn, stream, start, c) && AllowedRun(isn, stream, start, c, events)
    ensures
      var r := Run(isn, stream, start, c, events);
      && r.out <= stream
      && r.snd.tx.acknowledgement == r.rx.recvNext
      && r.fins <= 1 && (r.fins == 1 ==> r.out == stream)
      && (!r.phase.Gone? ==>
            if r.fins == 0 then r.rcv.window.sequence == Add(r.rx.recvNext, |Pending(r.phase)|)
            else r.rx.recvNext == Add(r.rcv.window.sequence, 1))
      && (r.rx.sackPerm ==> r.snd.tx.sacks == SacksOf(r.rcv.window))
  {
    InvMeans(stream, start, Run(isn, stream, start, c, events));
  }

  /**
   * What the SACK blocks kept for sending say, in every reachable state: at most four, each a run
   * of bytes held in the window, strictly above everything acknowledged, in order with a gap
   * between them; they end at the number of their end's position, and begin at that of their
   * beginning unless its key is exactly 2^32 - 1; and the bytes held are the peer's.
   */
  lemma RunSacks(isn: u32, stream: seq<byte>, start: u32, c: Conn, events: seq<(Event, Env)>, i: nat)
    requires Inv(isn, stream, start, c) && AllowedRun(isn, stream, start, c, events)
    requires
      var r := Run(isn, stream, start, c, events);
      r.rx.sackPerm && r.snd.tx.sacks.Some? && i < |r.snd.tx.sacks.value|
    ensures
      var r := Run(isn, stream, start, c, events);
      var runs := r.rcv.window.Runs();
      |r.snd.tx.sacks.value| <= 4 && i < |runs| && SackMeans(stream, start, r, r.snd.tx.sacks.value[i], runs[i])
      && (0 < i ==> runs[i - 1].1 < runs[i].0)
  {
    SackIs(stream, start, Run(isn, stream, start, c, events), i);
  }

  /** The block names the bytes from distance `run.0` up to `run.1` past the bytes handed out. */
  ghost predicate SackMeans(stream: seq<byte>, start: u32, c: Conn, block: Range, run: (nat, nat)) {
    var base := |c.rcv.out|;
    && |c.out| <= base && 0 < run.0 < run.1 && base + run.1 <= |stream|
    && block.1 == SeqAt(start, base + run.1)
    && (block.0 == SeqAt(start, base + run.0) <==> c.rcv.window.sequence + run.0 != U32_MAX)
    && forall p :: run.0 <= p < run.1 ==> p in c.rcv.window.held && c.rcv.window.held[p] == stream[base + p]
  }

  lemma SackIs(stream: seq<byte>, start: u32, c: Conn, i: nat)
    requires RxInv(stream, start, c) && c.rx.sackPerm && c.snd.tx.sacks.Some? && i < |c.snd.tx.sacks.value|
    ensures
      var runs := c.rcv.window.Runs();
      |c.snd.tx.sacks.value| <= 4 && i < |runs| && SackMeans(stream, start, c, c.snd.tx.sacks.value[i], runs[i])
      && (0 < i ==> runs[i - 1].1 < runs[i].0)
  {
    FilledMeans(c.rcv.window);
    var run, block := c.rcv.window.Runs()[i], c.rcv.window.Filled()[i];
    RunIsHeld(c.rcv.window, i);
    TracksMeans(stream, start, c.rcv);
    BlockMeans(stream, start, c, block, run);
  }

  lemma BlockMeans(stream: seq<byte>, start: u32, c: Conn, block: Range, run: (nat, nat))
    requires |c.out| <= |c.rcv.out| && c.rcv.window.sequence == SeqAt(start, |c.rcv.out|)
    requires 0 < run.0 < run.1 <= MAX_WINDOW
    requires forall p :: run.0 <= p < run.1 ==> p in c.rcv.window.held
    requires forall p :: p in c.rcv.window.held ==>
               |c.rcv.out| + p < |stream| && c.rcv.window.held[p] == stream[|c.rcv.out| + p]
    requires block.1 == Add(c.rcv.window.sequence, run.1)
    requires block.0 == Add(c.rcv.window.sequence, run.0) <==> c.rcv.window.sequence + run.0 != U32_MAX
    ensures SackMeans(stream, start, c, block, run)
  {
    SeqAtStep(start, |c.rcv.out|, run.0);
    SeqAtStep(start, |c.rcv.out|, run.1);
    assert run.1 - 1 in c.rcv.window.held;
  }

  lemma RunIsHeld(w: WindowState, i: nat)
    requires w.Ok() && i < |w.Runs()|
    ensures forall p :: w.Runs()[i].0 <= p < w.Runs()[i].1 ==> p in w.held
  {
    FilledMeans(w);
    forall p | w.Runs()[i].0 <= p < w.Runs()[i].1
      ensures p in w.held
    {
      assert InRuns(w.Runs(), p);
    }
  }

  lemma InvMeans(stream: seq<byte>, start: u32, c: Conn)
    requires RxInv(stream, start, c)
    ensures c.out <= stream
    ensures c.snd.tx.acknowledgement == c.rx.recvNext && c.fins <= 1 && (c.fins == 1 ==> c.out == stream)
    ensures !c.phase.Gone? ==>
              if c.fins == 0 then c.rcv.window.sequence == Add(c.rx.recvNext, |Pending(c.phase)|)
              else c.rx.recvNext == Add(c.rcv.window.sequence, 1)
  {
    TracksMeans(stream, start, c.rcv);
    if !c.phase.Gone? {
      if c.fins == 0 {
        SeqAtStep(start, |c.out|, |Pending(c.phase)|);
      } else {
        assert c.rcv.out == stream + [] == stream;
        SeqAtStep(start, |c.out|, 1);
      }
    }
  }
}
