/**
 * `TcpTxState` and the TCP part of `Forwarder` (src/lib.rs:105-494, src/lib.rs:663-1103,
 * src/lib.rs:1359-1390) as objects that update their fields, proved against the functions of
 * `Transmit`. One connection; frames sent are appended to `sent`.
 */
module Forwarding {
  import opened Basics
  import opened SequenceNumbers
  import opened SendQueue
  import opened SequenceRanges
  import opened Transmit

  class TcpTxState {
    var sendWindow: nat
    var sequence: u32
    var acknowledgement: u32
    var window: nat
    var sacks: Option<seq<Range>>
    const cache: Queue
    var cacheSyn: Option<nat>
    var cacheFin: Option<Timer>
    var cacheFinRetrans: bool
    var queue: seq<byte>
    var queueFin: bool
    var rto: nat
    var srtt: Option<nat>
    var rttvar: Option<nat>

    ghost predicate Valid()
      reads this, cache
    {
      cache.Valid()
    }

    ghost function View(): (tx: Tx)
      requires Valid()
      reads this, cache
      ensures tx.cache.Ok()
    {
      Tx(sendWindow, sequence, acknowledgement, window, sacks, cache.View(), cacheSyn, cacheFin,
         cacheFinRetrans, queue, queueFin, rto, srtt, rttvar)
    }

    constructor (sequence: u32, acknowledgement: u32, sendWindow: nat, capacity: nat)
      requires capacity <= MAX_CAPACITY
      ensures Valid() && fresh(cache)
      ensures View() == Tx(sendWindow, sequence, acknowledgement, RECV_WINDOW, None,
                           QueueState(capacity, sequence, [], [], None),
                           None, None, true, [], false, INITIAL_RTO, None, None)
    {
      this.sendWindow := sendWindow;
      this.sequence := sequence;
      this.acknowledgement := acknowledgement;
      this.window := RECV_WINDOW;
      this.sacks := None;
      this.cache := new Queue.WithCapacity(capacity, sequence);
      this.cacheSyn := None;
      this.cacheFin := None;
      this.cacheFinRetrans := true;
      this.queue := [];
      this.queueFin := false;
      this.rto := INITIAL_RTO;
      this.srtt := None;
      this.rttvar := None;
    }

    method UpdateRto(rtt: nat)
      requires Valid()
      modifies this`srtt, this`rttvar, this`rto
      ensures Valid() && View() == old(View()).UpdateRto(rtt)
    {
      var r := Min(rtt, U64_MAX);
      var previous := if rttvar.Some? then rttvar.value else 0;
      if srtt.Some? {
        var distance := if srtt.value >= r then srtt.value - r else r - srtt.value;
        rttvar := Some(SaturatingAdd(previous / 8 * 7, distance / 4));
        srtt := Some(SaturatingAdd(previous / 8 * 7, r / 8));
      } else {
        srtt := Some(r);
        rttvar := Some(r / 2);
      }
      rto := ClampRto(SaturatingAdd(srtt.value, Max(1, SaturatingMul(rttvar.value, 4))));
    }

    method DoubleRto()
      requires Valid()
      modifies this`rto
      ensures Valid() && View() == old(View()).DoubleRto()
    {
      rto := ClampRto(SaturatingMul(rto, 2));
    }

    method UpdateFinTimer(now: nat)
      requires Valid()
      modifies this`cacheFin, this`cacheFinRetrans
      ensures Valid() && View() == old(View()).UpdateFinTimer(now)
    {
      if cacheFin.Some? {
        cacheFinRetrans := true;
      }
      cacheFin := Some(Timer(now, rto));
    }

    method AppendCacheFin(now: nat)
      requires Valid()
      modifies this`queueFin, this`cacheFin, this`cacheFinRetrans
      ensures Valid() && View() == old(View()).AppendCacheFin(now)
    {
      queueFin := false;
      UpdateFinTimer(now);
    }

    /** Drains `size` bytes from the queue and appends them to the cache. */
    method AppendCache(size: nat, now: nat) returns (payload: seq<byte>, ok: bool)
      requires Valid() && size <= |queue|
      modifies this`queue, cache
      ensures Valid() && payload == old(queue)[..size]
      ensures ok <==> size <= old(View()).cache.Remaining()
      ensures View() == old(View()).(queue := old(queue)[size..],
                                     cache := if ok then old(View()).cache.Append(payload, rto, now)
                                              else old(View()).cache)
    {
      payload := queue[..size];
      queue := queue[size..];
      ok := cache.Append(payload, rto, now);
    }

    method Acknowledge(ack: u32, now: nat)
      requires Valid()
      modifies this, cache
      ensures Valid() && View() == old(View()).Acknowledge(ack, now)
    {
      ghost var tx := View();
      var rtt := AcknowledgeSyn(ack, now);
      var cacheRtt := cache.InvalidateTo(ack, now);
      if rtt.None? {
        rtt := cacheRtt;
      }
      assert View() == tx.AckedSyn(ack).(cache := tx.cache.InvalidateTo(ack, now).0);
      rtt := AcknowledgeFin(ack, rtt, now);
      assert rtt == tx.Sampled(ack, now);
      if rtt.Some? {
        UpdateRto(rtt.value);
      }
    }

    method AcknowledgeSyn(ack: u32, now: nat) returns (rtt: Option<nat>)
      requires Valid()
      modifies this`cacheSyn, this`sequence
      ensures Valid() && View() == old(View()).AckedSyn(ack)
      ensures rtt == if old(View()).AcksSyn(ack) then Some(Timer(old(cacheSyn).value, 0).Elapsed(now)) else None
    {
      rtt := None;
      if cacheSyn.Some? && Ahead(ack, sequence) {
        rtt := Some(Timer(cacheSyn.value, 0).Elapsed(now));
        cacheSyn := None;
        sequence := Add(sequence, 1);
      }
    }

    method AcknowledgeFin(ack: u32, sample: Option<nat>, now: nat) returns (rtt: Option<nat>)
      requires Valid()
      modifies this`cacheFin, this`cacheFinRetrans, this`sequence
      ensures Valid() && View() == old(View()).AckedFin(ack)
      ensures rtt == if old(cacheFin).Some? && Ahead(ack, old(View()).cache.RecvNext()) && sample.None?
                        && !old(cacheFinRetrans) && !old(cacheFin).value.Expired(now)
                     then Some(old(cacheFin).value.Elapsed(now)) else sample
    {
      rtt := sample;
      if Ahead(ack, cache.RecvNext()) {
        if cacheFin.Some? {
          if rtt.None? && !cacheFinRetrans && !cacheFin.value.Expired(now) {
            rtt := Some(cacheFin.value.Elapsed(now));
          }
          cacheFin := None;
          cacheFinRetrans := false;
          sequence := Add(sequence, 1);
        }
      }
    }

    method SetSacks(filled: seq<Range>)
      requires Valid()
      modifies this`sacks
      ensures Valid() && View() == old(View()).SetSacks(filled)
    {
      if filled == [] {
        sacks := None;
      } else {
        sacks := Some(filled[..Min(4, |filled|)]);
      }
    }
  }

  class Forwarder {
    const state: TcpTxState
    var mss: nat
    var localMtu: nat
    var sent: seq<Frame>

    ghost predicate Valid()
      reads this, state, state.cache
    {
      state.Valid() && 0 < mss
    }

    function EnvAt(now: nat): Env
      reads this`mss, this`localMtu
    {
      Env(now, mss, localMtu)
    }

    constructor (state: TcpTxState, mss: nat, localMtu: nat)
      requires state.Valid() && 0 < mss
      ensures Valid() && this.state == state && this.mss == mss && this.localMtu == localMtu && sent == []
    {
      this.state := state;
      this.mss := mss;
      this.localMtu := localMtu;
      this.sent := [];
    }

    /** What a method that implements a step promises: the state and the log are the step's. */
    twostate predicate Did(out: Out)
      reads this, state, state.cache
    {
      && Valid()
      && state.View() == out.tx
      && sent == old(sent) + out.frames
    }

    function GetTcpWindow(): (w: nat)
      requires Valid()
      reads this, state, state.cache
      ensures w == state.View().ReportedWindow(EnvAt(0))
    {
      var thresh := Min(RECV_WINDOW / 2, localMtu);
      if state.window < thresh then 0 else state.window
    }

    method SendFrame(f: Frame)
      modifies this`sent
      ensures sent == old(sent) + [f]
    {
      sent := sent + [f];
    }

    // -- steps under the mutex -----------------------------------------------------------------

    /** `open`: sends the SYN and starts its timer. */
    method Open(now: nat)
      requires Valid()
      modifies this`sent, state`cacheSyn
      ensures Valid() && state.View() == old(state.View()).(cacheSyn := Some(now))
      ensures sent == old(sent) + [old(state.View()).SynAckFrame(EnvAt(now))]
    {
      SendFrame(SynAck(state.sequence, state.acknowledgement, GetTcpWindow()));
      state.cacheSyn := Some(now);
    }

    /** `forward`: queues the payload and sends what the window allows; refused after a close. */
    method Forward(payload: seq<byte>, now: nat) returns (ok: bool)
      requires Valid()
      modifies this`sent, state, state.cache
      ensures Did(old(state.View()).Forward(payload, old(EnvAt(now))))
      ensures ok == old(state.View()).Forward(payload, old(EnvAt(now))).ok
    {
      if state.cacheFin.Some? || state.queueFin {
        assert sent == old(sent) + [];
        return false;
      }
      state.queue := state.queue + payload;
      ok := SendTcpAck(now);
    }

    method Close(now: nat) returns (ok: bool)
      requires Valid()
      modifies this`sent, state, state.cache
      ensures Did(old(state.View()).Close(old(EnvAt(now))))
      ensures ok == old(state.View()).Close(old(EnvAt(now))).ok
    {
      state.queueFin := true;
      ok := SendTcpAck(now);
    }

    /** `tick`: retransmits what timed out. */
    method Tick(now: nat)
      requires Valid()
      modifies this`sent, state, state.cache
      ensures Did(old(state.View()).Tick(old(EnvAt(now))))
    {
      var nextRto := SaturatingMul(state.rto, 2);
      var payload := state.cache.GetTimedOutAndUpdate(Max(MAX_RTO, Min(MIN_RTO, nextRto)), now);
      var size := state.cache.size;
      if size > 0 {
        state.DoubleRto();
        if size == |payload| && state.cacheFin.Some? {
          state.UpdateFinTimer(now);
          SendTcpAckRaw(state.cache.sequence, payload, true, now);
        } else {
          SendTcpAckRaw(state.cache.sequence, payload, false, now);
        }
      } else if state.cacheFin.Some? && state.cacheFin.value.Expired(now) {
        state.DoubleRto();
        state.UpdateFinTimer(now);
        SendTcpFin(now);
      } else {
        assert sent == old(sent) + [];
      }
    }

    /** Sends queued bytes within the window, with the FIN if they are the last; else a lone FIN. */
    method SendTcpAck(now: nat) returns (ok: bool)
      requires Valid()
      modifies this`sent, state, state.cache
      ensures Did(old(state.View()).SendTcpAck(old(EnvAt(now))))
      ensures ok == old(state.View()).SendTcpAck(old(EnvAt(now))).ok
    {
      if state.cacheSyn.Some? {
        SendFrame(SynAck(state.sequence, state.acknowledgement, GetTcpWindow()));
        return true;
      }
      ok := true;
      if state.sendWindow > 0 {
        var size := AllowedSize();
        if size > 0 {
          ok := SendQueued(size, now);
          if !ok {
            return;
          }
        }
      }
      SendQueuedFin(now);
    }

    /** How many queued bytes may be sent now. */
    method AllowedSize() returns (size: nat)
      requires Valid()
      ensures size == state.View().Allowance(mss)
    {
      var sentSize := state.cache.size;
      var remain := if state.sendWindow >= sentSize then state.sendWindow - sentSize else 0;
      size := Min(Min(remain, U16_MAX), |state.queue|);
      if size < mss && state.cache.size != 0 {
        size := 0;
      }
    }

    method SendQueued(size: nat, now: nat) returns (ok: bool)
      requires Valid() && 0 < size <= |state.queue|
      modifies this`sent, state, state.cache
      ensures Did(old(state.View()).SendQueued(size, old(EnvAt(now))))
      ensures ok == old(state.View()).SendQueued(size, old(EnvAt(now))).ok
    {
      var payload;
      payload, ok := state.AppendCache(size, now);
      if !ok {
        assert sent == old(sent) + [];
        return;
      }
      if state.queue == [] && state.queueFin {
        state.AppendCacheFin(now);
        SendTcpAckRaw(state.sequence, payload, true, now);
      } else {
        SendTcpAckRaw(state.sequence, payload, false, now);
      }
    }

    method SendQueuedFin(now: nat)
      requires Valid()
      modifies this`sent, state
      ensures Did(old(state.View()).SendQueuedFin(old(EnvAt(now))))
    {
      if state.queueFin && state.cache.size == 0 {
        state.AppendCacheFin(now);
        SendTcpFin(now);
      } else {
        assert sent == old(sent) + [];
      }
    }

    /** Fast retransmission of the whole cache. */
    method RetransmitTcpAck(now: nat)
      requires Valid()
      modifies this`sent, state`sequence
      ensures Did(old(state.View()).RetransmitAll(old(EnvAt(now))))
    {
      var payload := state.cache.GetAll();
      if |payload| > 0 {
        SendTcpAckRaw(state.cache.sequence, payload, state.cacheFin.Some?, now);
      } else {
        assert sent == old(sent) + [];
      }
    }

    /** Selective retransmission of what no block covers. */
    method RetransmitTcpAckWithout(sacks: seq<Range>, now: nat) returns (ok: bool)
      requires Valid()
      modifies this`sent, state`sequence
      ensures Did(old(state.View()).RetransmitWithout(sacks, old(EnvAt(now))))
      ensures ok == old(state.View()).RetransmitWithout(sacks, old(EnvAt(now))).ok
    {
      var ranges := Unacknowledged((state.cache.sequence, state.cache.RecvNext()), sacks);
      ok := SendRanges(ranges, now);
      if ok && |ranges| == 0 && state.cacheFin.Some? {
        SendTcpFin(now);
      }
    }

    method SendRanges(ranges: seq<Range>, now: nat) returns (ok: bool)
      requires Valid()
      modifies this`sent, state`sequence
      ensures Did(old(state.View()).SendRanges(ranges, old(EnvAt(now))))
      ensures ok == old(state.View()).SendRanges(ranges, old(EnvAt(now))).ok
    {
      ghost var tx, before := state.View(), sent;
      ghost var frames: seq<Frame> := [];
      SentRangesNone(tx, EnvAt(now), ranges);
      for i := 0 to |ranges|
        invariant Valid() && sent == before + frames && state.View() == tx.(sequence := state.sequence)
        invariant SentRanges(tx, EnvAt(now), ranges, i, tx.(sequence := state.sequence), frames)
      {
        var more;
        more, frames := SendNextRange(ranges, i, now, tx, before, frames);
        if !more {
          return false;
        }
      }
      SentRangesAll(tx, EnvAt(now), ranges, tx.(sequence := state.sequence), frames);
      return true;
    }

    /** The body of the loop over the ranges. */
    method SendNextRange(ranges: seq<Range>, i: nat, now: nat, ghost tx: Tx, ghost before: seq<Frame>,
                         ghost frames: seq<Frame>)
      returns (ok: bool, ghost frames': seq<Frame>)
      requires Valid() && tx.WellSized() && i < |ranges|
      requires sent == before + frames && state.View() == tx.(sequence := state.sequence)
      requires SentRanges(tx, EnvAt(now), ranges, i, tx.(sequence := state.sequence), frames)
      modifies this`sent, state`sequence
      ensures Valid() && sent == before + frames' && state.View() == tx.(sequence := state.sequence)
      ensures ok ==> SentRanges(tx, EnvAt(now), ranges, i + 1, tx.(sequence := state.sequence), frames')
      ensures !ok ==> tx.SendRanges(ranges, EnvAt(now)) == Out(tx.(sequence := state.sequence), frames', false)
    {
      SentRangesNext(tx, EnvAt(now), ranges, i, state.View(), frames);
      frames' := frames + state.View().SendRange(ranges[i], EnvAt(now)).frames;
      ok := SendRange(ranges[i], now);
    }

    method SendRange(range: Range, now: nat) returns (ok: bool)
      requires Valid()
      modifies this`sent, state`sequence
      ensures Did(old(state.View()).SendRange(range, old(EnvAt(now))))
      ensures ok == old(state.View()).SendRange(range, old(EnvAt(now))).ok
    {
      var read := state.cache.Get(range.0, Sub(range.1, range.0));
      if read.Failed? {
        assert sent == old(sent) + [];
        return false;
      }
      if |read.payload| > 0 {
        SendTcpAckRaw(range.0, read.payload, range.1 == state.cache.RecvNext() && state.cacheFin.Some?, now);
      } else {
        assert sent == old(sent) + [];
      }
      return true;
    }

    /** An acknowledgement without payload, with the SACK blocks kept for sending. */
    method SendTcpAck0(now: nat)
      requires Valid()
      modifies this`sent
      ensures sent == old(sent) + [state.View().AckFrame(EnvAt(now))]
    {
      SendFrame(PureAck(state.sequence, state.acknowledgement, GetTcpWindow(), state.sacks));
    }

    method SendTcpFin(now: nat)
      requires Valid()
      modifies this`sent
      ensures sent == old(sent) + [state.View().FinFrame(EnvAt(now))]
    {
      SendFrame(PureFin(state.sequence, state.acknowledgement, GetTcpWindow()));
    }

    // -- segmentation ----------------------------------------------------------------------------

    /** Cuts the payload into segments, sends each and moves the sequence number past it. */
    method SendTcpAckRaw(from: u32, payload: seq<byte>, fin: bool, now: nat)
      requires Valid() && |payload| <= U32_MAX
      modifies this`sent, state`sequence
      ensures Did(old(state.View()).SendRaw(from, payload, fin, old(EnvAt(now))))
    {
      ghost var tx := state.View();
      ghost var env := EnvAt(now);
      ghost var frames: seq<Frame> := [];
      var i: nat, offset: nat := 0, 0;
      while offset < |payload|
        invariant Valid() && offset == mss * i
        invariant state.View() == tx.(sequence := state.sequence)
        invariant sent == old(sent) + frames
        invariant SegmentedUpTo(tx, env, from, payload, fin, Min(offset, |payload|), frames, state.sequence)
        decreases |payload| - offset
      {
        ghost var f := SendPiece(i, offset, from, payload, fin, now, tx, frames);
        frames := frames + [f];
        NextOffset(mss, i);
        i := i + 1;
        offset := offset + mss;
      }
      SegmentedAll(tx, env, from, payload, fin, frames, state.sequence);
    }

    /** The body of the segmentation loop. */
    method SendPiece(i: nat, offset: nat, from: u32, payload: seq<byte>, fin: bool, now: nat, ghost tx: Tx,
                     ghost frames: seq<Frame>)
      returns (ghost f: Frame)
      requires Valid() && offset < |payload| <= U32_MAX && state.View() == tx.(sequence := state.sequence)
      requires SegmentedUpTo(tx, EnvAt(now), from, payload, fin, offset, frames, state.sequence)
      modifies this`sent, state`sequence
      ensures Valid() && state.View() == tx.(sequence := state.sequence) && sent == old(sent) + [f]
      ensures
        var done := offset + Min(mss, |payload| - offset);
        SegmentedUpTo(tx, EnvAt(now), from, payload, fin, done, frames + [f], state.sequence)
    {
      var size := Min(mss, |payload| - offset);
      ghost var before := state.sequence;
      SendSegment(i, Add(from, offset), payload[offset..offset + size], fin, now);
      SegmentsNext(tx, EnvAt(now), from, payload, fin, offset, frames, before, state.sequence, size);
      f := SegmentFrame(tx, EnvAt(now), from, payload, fin, offset, size);
    }

    /** One segment; `segment` shadows the whole payload in the test for the last one. */
    method SendSegment(i: nat, at: u32, segment: seq<byte>, fin: bool, now: nat)
      requires Valid() && 0 < |segment| <= mss && |segment| <= U32_MAX
      modifies this`sent, state`sequence
      ensures Valid() && state.View() == old(state.View()).(sequence := state.sequence)
      ensures state.sequence == Advance(old(state.sequence), SegmentEnd(at, |segment|, fin))
      ensures
        var window := old(state.View()).ReportedWindow(EnvAt(now));
        sent == old(sent) + [Data(at, state.acknowledgement, window, fin, segment)]
    {
      var recvNext := Add(at, |segment|);
      assert mss * (i + 1) >= |segment|;
      if fin && mss * (i + 1) >= |segment| {
        SendFrame(Data(at, state.acknowledgement, GetTcpWindow(), true, segment));
        recvNext := if recvNext == U32_MAX then 0 else recvNext + 1;
      } else {
        SendFrame(Data(at, state.acknowledgement, GetTcpWindow(), false, segment));
      }
      var more := Sub(recvNext, state.sequence);
      if more <= MAX_WINDOW {
        state.sequence := Add(state.sequence, more);
      }
    }
  }

  /** After `i` ranges in `frames`, the rest of the loop is that of the remaining ranges. */
  ghost predicate SentRanges(tx: Tx, env: Env, ranges: seq<Range>, i: nat, now: Tx, frames: seq<Frame>)
    requires tx.WellSized() && 0 < env.mss && i <= |ranges|
  {
    && now.cache == tx.cache
    && var rest := now.SendRanges(ranges[i..], env);
       tx.SendRanges(ranges, env) == Out(rest.tx, frames + rest.frames, rest.ok)
  }

  lemma SentRangesNone(tx: Tx, env: Env, ranges: seq<Range>)
    requires tx.WellSized() && 0 < env.mss
    ensures SentRanges(tx, env, ranges, 0, tx, [])
  {
    assert ranges[0..] == ranges;
    var out := tx.SendRanges(ranges, env);
    assert [] + out.frames == out.frames;
  }

  lemma SentRangesAll(tx: Tx, env: Env, ranges: seq<Range>, now: Tx, frames: seq<Frame>)
    requires tx.WellSized() && 0 < env.mss && SentRanges(tx, env, ranges, |ranges|, now, frames)
    ensures tx.SendRanges(ranges, env) == Out(now, frames, true)
  {
    assert ranges[|ranges|..] == [];
    assert now.SendRanges([], env) == Out(now, [], true);
    assert frames + [] == frames;
  }

  lemma SentRangesNext(tx: Tx, env: Env, ranges: seq<Range>, i: nat, now: Tx, frames: seq<Frame>)
    requires tx.WellSized() && 0 < env.mss && i < |ranges| && SentRanges(tx, env, ranges, i, now, frames)
    ensures
      var out := now.SendRange(ranges[i], env);
      && (out.ok ==> SentRanges(tx, env, ranges, i + 1, out.tx, frames + out.frames))
      && (!out.ok ==> tx.SendRanges(ranges, env) == Out(out.tx, frames + out.frames, false))
  {
    assert ranges[i..][0] == ranges[i] && ranges[i..][1..] == ranges[i + 1..];
    var out := now.SendRange(ranges[i], env);
    if out.ok {
      var rest := out.tx.SendRanges(ranges[i + 1..], env);
      assert frames + (out.frames + rest.frames) == (frames + out.frames) + rest.frames;
    }
  }

  lemma NextOffset(mss: nat, i: nat)
    ensures mss * (i + 1) == mss * i + mss
  {
  }

  ghost function SegmentFrame(tx: Tx, env: Env, from: u32, payload: seq<byte>, fin: bool, at: nat, size: nat): Frame
    requires at + size <= |payload| <= U32_MAX
  {
    Data(Add(from, at), tx.acknowledgement, tx.ReportedWindow(env), fin, payload[at..at + size])
  }

  /** After `done` bytes in `frames`, the rest of the segmentation is that of the rest of the payload. */
  ghost predicate SegmentedUpTo(tx: Tx, env: Env, from: u32, payload: seq<byte>, fin: bool, done: nat,
                                frames: seq<Frame>, sequence: u32)
    requires 0 < env.mss
  {
    && done <= |payload| <= U32_MAX
    && frames + tx.Segments(Add(from, done), payload[done..], fin, env) == tx.Segments(from, payload, fin, env)
    && AdvanceAll(sequence, Add(from, done), payload[done..], fin, env.mss)
       == AdvanceAll(tx.sequence, from, payload, fin, env.mss)
  }

  /** Unfolding the segmentation by one segment, with numbers counted from the first one. */
  lemma SegmentsNext(tx: Tx, env: Env, from: u32, payload: seq<byte>, fin: bool, done: nat, frames: seq<Frame>,
                     sequence: u32, sequence': u32, size: nat)
    requires 0 < env.mss && SegmentedUpTo(tx, env, from, payload, fin, done, frames, sequence)
    requires done < |payload| && size == Min(env.mss, |payload| - done)
    requires sequence' == Advance(sequence, SegmentEnd(Add(from, done), size, fin))
    ensures SegmentedUpTo(tx, env, from, payload, fin, done + size,
                          frames + [SegmentFrame(tx, env, from, payload, fin, done, size)], sequence')
  {
    var rest := payload[done..];
    var first := SegmentFrame(tx, env, from, payload, fin, done, size);
    var tail := tx.Segments(Add(from, done + size), payload[done + size..], fin, env);
    assert rest[size..] == payload[done + size..] && rest[..size] == payload[done..done + size];
    assert Add(Add(from, done), size) == Add(from, done + size);
    assert tx.Segments(Add(from, done), rest, fin, env) == [first] + tail;
    assert frames + ([first] + tail) == (frames + [first]) + tail;
  }

  lemma SegmentedAll(tx: Tx, env: Env, from: u32, payload: seq<byte>, fin: bool, frames: seq<Frame>, sequence: u32)
    requires 0 < env.mss && SegmentedUpTo(tx, env, from, payload, fin, |payload|, frames, sequence)
    ensures frames == tx.Segments(from, payload, fin, env)
    ensures sequence == AdvanceAll(tx.sequence, from, payload, fin, env.mss)
  {
    assert payload[|payload|..] == [];
    assert frames + [] == frames;
  }
}
