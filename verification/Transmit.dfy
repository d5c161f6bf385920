/**
 * The sending side of a connection on plain values: `TcpTxState` and the `Forwarder` operations on
 * one connection (src/lib.rs:105-494 and src/lib.rs:663-1390). Every operation that runs under the
 * `Forwarder` mutex is one function from the state to the next state and the frames it sends.
 *
 * Time, the maximum segment size and the local MTU are inputs of each step (`Env`); sending a
 * frame always succeeds.
 */
module Transmit {
  import opened Basics
  import opened SequenceNumbers
  import opened SendQueue
  import opened SequenceRanges

  const U16_MAX: nat := 0xFFFF
  const U64_MAX: nat := 0xFFFF_FFFF_FFFF_FFFF
  const RECV_WINDOW: nat := U16_MAX
  const INITIAL_RTO: nat := 1000
  const MIN_RTO: nat := 1000
  const MAX_RTO: nat := 60000

  /** `mss` is the MTU towards the source less 40 bytes of headers. */
  datatype Env = Env(now: nat, mss: nat, localMtu: nat)

  datatype Frame =
    | SynAck(sequence: u32, acknowledgement: u32, window: nat)
    | Data(sequence: u32, acknowledgement: u32, window: nat, fin: bool, payload: seq<byte>)
    | PureAck(sequence: u32, acknowledgement: u32, window: nat, sacks: Option<seq<Range>>)
    | PureFin(sequence: u32, acknowledgement: u32, window: nat)

  /** A step's next state and frames; `ok` is false when the source returns an error. */
  datatype Out = Out(tx: Tx, frames: seq<Frame>, ok: bool)

  function SaturatingAdd(a: nat, b: nat): nat { Min(a + b, U64_MAX) }

  function SaturatingMul(a: nat, b: nat): nat { Min(a * b, U64_MAX) }

  function ClampRto(rto: nat): nat { Min(MAX_RTO, Max(MIN_RTO, rto)) }

  /** End of a segment; a FIN counts one more, by an addition that wraps to 0. */
  function SegmentEnd(from: u32, size: u32, fin: bool): u32 {
    var end := Add(from, size);
    if fin then (if end == U32_MAX then 0 else end + 1) else end
  }

  /** The next sequence number after a segment that ends at `end`. */
  function Advance(sequence: u32, end: u32): u32 {
    var more := Sub(end, sequence);
    if more <= MAX_WINDOW then Add(sequence, more) else sequence
  }

  /** The next sequence number after all segments of a payload. */
  function AdvanceAll(sequence: u32, from: u32, payload: seq<byte>, fin: bool, mss: nat): u32
    requires 0 < mss && |payload| <= U32_MAX
    decreases |payload|
  {
    if payload == [] then sequence
    else
      var size := Min(mss, |payload|);
      AdvanceAll(Advance(sequence, SegmentEnd(from, size, fin)), Add(from, size), payload[size..], fin, mss)
  }

  datatype Tx = Tx(
    sendWindow: nat,
    sequence: u32,
    acknowledgement: u32,
    window: nat,
    sacks: Option<seq<Range>>,
    cache: QueueState,
    cacheSyn: Option<nat>,
    cacheFin: Option<Timer>,
    cacheFinRetrans: bool,
    queue: seq<byte>,
    queueFin: bool,
    rto: nat,
    srtt: Option<nat>,
    rttvar: Option<nat>)
  {
    predicate WellSized() { cache.WellSized() }

    // -- round-trip estimation -------------------------------------------------------------------

    function UpdateRto(rtt: nat): Tx {
      var r := Min(rtt, U64_MAX);
      var previous := if rttvar.Some? then rttvar.value else 0;
      var newVar :=
        if srtt.Some? then
          SaturatingAdd(previous / 8 * 7, (if srtt.value >= r then srtt.value - r else r - srtt.value) / 4)
        else r / 2;
      var newSrtt := if srtt.Some? then SaturatingAdd(previous / 8 * 7, r / 8) else r;
      this.(srtt := Some(newSrtt), rttvar := Some(newVar),
            rto := ClampRto(SaturatingAdd(newSrtt, Max(1, SaturatingMul(newVar, 4)))))
    }

    function DoubleRto(): Tx { this.(rto := ClampRto(SaturatingMul(rto, 2))) }

    // -- frames ----------------------------------------------------------------------------------

    /** The window put on the wire: 0 below the silly-window threshold. */
    function ReportedWindow(env: Env): nat {
      if window < Min(RECV_WINDOW / 2, env.localMtu) then 0 else window
    }

    function SynAckFrame(env: Env): Frame { SynAck(sequence, acknowledgement, ReportedWindow(env)) }

    function AckFrame(env: Env): Frame { PureAck(sequence, acknowledgement, ReportedWindow(env), sacks) }

    function FinFrame(env: Env): Frame { PureFin(sequence, acknowledgement, ReportedWindow(env)) }

    /** One data frame per segment; the inner payload shadows the outer one, so each carries `fin`. */
    function Segments(from: u32, payload: seq<byte>, fin: bool, env: Env): seq<Frame>
      requires 0 < env.mss && |payload| <= U32_MAX
      decreases |payload|
    {
      if payload == [] then []
      else
        var size := Min(env.mss, |payload|);
        [Data(from, acknowledgement, ReportedWindow(env), fin, payload[..size])]
        + Segments(Add(from, size), payload[size..], fin, env)
    }

    /** `send_tcp_ack_raw` */
    function SendRaw(from: u32, payload: seq<byte>, fin: bool, env: Env): Out
      requires 0 < env.mss && |payload| <= U32_MAX
    {
      Out(this.(sequence := AdvanceAll(sequence, from, payload, fin, env.mss)),
          Segments(from, payload, fin, env), true)
    }

    // -- FIN bookkeeping -------------------------------------------------------------------------

    function UpdateFinTimer(now: nat): Tx {
      this.(cacheFinRetrans := cacheFinRetrans || cacheFin.Some?, cacheFin := Some(Timer(now, rto)))
    }

    function AppendCacheFin(now: nat): Tx { this.(queueFin := false).UpdateFinTimer(now) }

    // -- acknowledgement -------------------------------------------------------------------------

    /** The SYN counts as acknowledged by any number from its own on. */
    predicate AcksSyn(ack: u32) { cacheSyn.Some? && Ahead(ack, sequence) }

    /** The FIN counts as acknowledged by any number from the end of the cache on. */
    predicate AcksFin(ack: u32, now: nat)
      requires WellSized()
    {
      cacheFin.Some? && Ahead(ack, cache.InvalidateTo(ack, now).0.RecvNext())
    }

    function Sampled(ack: u32, now: nat): Option<nat>
      requires WellSized()
    {
      if AcksSyn(ack) then Some(Timer(cacheSyn.value, 0).Elapsed(now))
      else
        var sample := cache.InvalidateTo(ack, now).1;
        if sample.None? && AcksFin(ack, now) && !cacheFinRetrans && !cacheFin.value.Expired(now) then
          Some(cacheFin.value.Elapsed(now))
        else sample
    }

    /** An acknowledged SYN leaves the cache and counts one. */
    function AckedSyn(ack: u32): Tx {
      if AcksSyn(ack) then this.(cacheSyn := None, sequence := Add(sequence, 1)) else this
    }

    /** An acknowledged FIN leaves the cache and counts one. */
    function AckedFin(ack: u32): Tx
      requires WellSized()
    {
      if cacheFin.Some? && Ahead(ack, cache.RecvNext()) then
        this.(cacheFin := None, cacheFinRetrans := false, sequence := Add(sequence, 1))
      else this
    }

    /** `acknowledge` */
    function Acknowledge(ack: u32, now: nat): (t: Tx)
      requires WellSized()
      ensures t.WellSized()
    {
      var acked := AckedSyn(ack).(cache := cache.InvalidateTo(ack, now).0).AckedFin(ack);
      var rtt := Sampled(ack, now);
      if rtt.Some? then acked.UpdateRto(rtt.value) else acked
    }

    // -- sending ---------------------------------------------------------------------------------

    /** How many queued bytes `send_tcp_ack` takes: flow control, then silly-window avoidance. */
    function Allowance(mss: nat): (size: nat)
      ensures size <= |queue| && |cache.bytes| + size <= Max(|cache.bytes|, sendWindow)
    {
      var remain := if sendWindow >= |cache.bytes| then sendWindow - |cache.bytes| else 0;
      var size := Min(Min(remain, U16_MAX), |queue|);
      if size < mss && |cache.bytes| > 0 then 0 else size
    }

    /** Moves `size` bytes from the queue to the cache and sends them, with the FIN if they are last. */
    function SendQueued(size: nat, env: Env): Out
      requires WellSized() && 0 < env.mss && 0 < size <= |queue|
    {
      var drained := this.(queue := queue[size..]);
      if size > cache.Remaining() then Out(drained, [], false) // drained, then "queue is full"
      else
        var payload := queue[..size];
        var cached := drained.(cache := cache.Append(payload, rto, env.now));
        if cached.queue == [] && queueFin then
          cached.AppendCacheFin(env.now).SendRaw(sequence, payload, true, env)
        else cached.SendRaw(sequence, payload, false, env)
    }

    /** A queued FIN leaves on its own once the cache is empty. */
    function SendQueuedFin(env: Env): Out {
      if queueFin && cache.bytes == [] then
        var t := AppendCacheFin(env.now);
        Out(t, [t.FinFrame(env)], true)
      else Out(this, [], true)
    }

    /** `send_tcp_ack` */
    function SendTcpAck(env: Env): Out
      requires WellSized() && 0 < env.mss
    {
      if cacheSyn.Some? then Out(this, [SynAckFrame(env)], true)
      else
        var size := Allowance(env.mss);
        var sent := if sendWindow > 0 && size > 0 then SendQueued(size, env) else Out(this, [], true);
        if !sent.ok then sent
        else
          var fin := sent.tx.SendQueuedFin(env);
          Out(fin.tx, sent.frames + fin.frames, true)
    }

    /** `forward`: refused while a FIN is queued or unacknowledged. */
    function Forward(payload: seq<byte>, env: Env): Out
      requires WellSized() && 0 < env.mss
    {
      if cacheFin.Some? || queueFin then Out(this, [], false)
      else this.(queue := queue + payload).SendTcpAck(env)
    }

    /** `close` */
    function Close(env: Env): Out
      requires WellSized() && 0 < env.mss
    {
      this.(queueFin := true).SendTcpAck(env)
    }

    // -- retransmission --------------------------------------------------------------------------

    /** `tick`: the timed-out prefix of the cache, or a timed-out FIN. */
    function Tick(env: Env): Out
      requires cache.Ok() && 0 < env.mss
    {
      var (refreshed, payload) :=
        cache.TimedOut(Max(MAX_RTO, Min(MIN_RTO, SaturatingMul(rto, 2))), env.now);
      var t := this.(cache := refreshed);
      if |cache.bytes| > 0 then
        var doubled := t.DoubleRto();
        if |cache.bytes| == |payload| && cacheFin.Some? then
          doubled.UpdateFinTimer(env.now).SendRaw(cache.sequence, payload, true, env)
        else doubled.SendRaw(cache.sequence, payload, false, env)
      else if cacheFin.Some? && cacheFin.value.Expired(env.now) then
        var again := t.DoubleRto().UpdateFinTimer(env.now);
        Out(again, [again.FinFrame(env)], true)
      else Out(t, [], true)
    }

    /** `retransmit_tcp_ack`: everything in the cache. */
    function RetransmitAll(env: Env): Out
      requires WellSized() && 0 < env.mss
    {
      if cache.bytes == [] then Out(this, [], true)
      else SendRaw(cache.sequence, cache.bytes, cacheFin.Some?, env)
    }

    /** Resends one range of the cache, if it is not empty; a failed read is an error. */
    function SendRange(range: Range, env: Env): (out: Out)
      requires WellSized() && 0 < env.mss
      ensures out.tx == this.(sequence := out.tx.sequence)
    {
      match cache.Get(range.0, Sub(range.1, range.0))
      case Failed(_) => Out(this, [], false)
      case Got(payload) =>
        if payload == [] then Out(this, [], true)
        else SendRaw(range.0, payload, range.1 == cache.RecvNext() && cacheFin.Some?, env)
    }

    /** The sending loop of `retransmit_tcp_ack_without`. */
    function SendRanges(ranges: seq<Range>, env: Env): (out: Out)
      requires WellSized() && 0 < env.mss
      ensures out.tx == this.(sequence := out.tx.sequence)
      decreases |ranges|
    {
      if ranges == [] then Out(this, [], true)
      else
        var first := SendRange(ranges[0], env);
        if !first.ok then first
        else
          var rest := first.tx.SendRanges(ranges[1..], env);
          Out(rest.tx, first.frames + rest.frames, rest.ok)
    }

    /** `retransmit_tcp_ack_without` */
    function RetransmitWithout(blocks: seq<Range>, env: Env): Out
      requires WellSized() && 0 < env.mss
    {
      var ranges := SubtractAll([(cache.sequence, cache.RecvNext())], blocks);
      var sent := SendRanges(ranges, env);
      if sent.ok && ranges == [] && sent.tx.cacheFin.Some? then
        Out(sent.tx, sent.frames + [sent.tx.FinFrame(env)], true)
      else sent
    }

    // -- what the receiving side sets ------------------------------------------------------------

    /** `set_sacks`: at most the first four ranges. */
    function SetSacks(filled: seq<Range>): Tx {
      this.(sacks := if filled == [] then None else Some(filled[..Min(4, |filled|)]))
    }
  }
}
