/**
 * What the FIN does to the sequence number (src/lib.rs:941-994, src/lib.rs:265-282). A FIN that
 * rides on data is counted when it is sent, unless the data end at number 2^32 - 1, and every FIN
 * is counted when it is taken as acknowledged; the invariant here says by how much the number is
 * off in every state after a FIN, and on every FIN sent alone.
 */
module FinNumbers {
  import opened Basics
  import opened SequenceNumbers
  import opened SendQueue
  import opened SequenceRanges
  import opened Transmit
  import opened SenderSteps

  // ---------------------------------------------------------------------------------------------
  // Segments that carry a FIN
  // ---------------------------------------------------------------------------------------------

  /** Where a segment with a FIN ends: the FIN counts, unless the addition wraps to 0. */
  function FinEnd(isn: u32, end: nat): nat {
    if SeqAt(isn, end) == U32_MAX then end else end + 1
  }

  lemma FinAdvance(isn: u32, s: nat, end: nat)
    requires 0 < s && end < s + MAX_WINDOW && s + MAX_WINDOW < end + U32_MAX
    ensures Advance(SeqAt(isn, s), SegmentEnd(SeqAt(isn, end), 0, true)) == SeqAt(isn, Max(s, FinEnd(isn, end)))
  {
    if SeqAt(isn, end) == U32_MAX {
      Apart(isn, s, end);
      SeqAtStep(isn, s - 1, 1);
    } else {
      SeqAtStep(isn, end, 1);
      AdvanceByPosition(isn, s, end + 1);
    }
  }

  /** With a FIN on the segments the number ends at its old value or past the FIN, whichever is later. */
  lemma {:induction false} AdvanceAllWithFin(isn: u32, s: nat, p: nat, payload: seq<byte>, mss: nat)
    requires 0 < mss && payload != [] && 0 < s
    requires p + |payload| < s + MAX_WINDOW && s + |payload| + MAX_WINDOW < p + U32_MAX
    ensures |payload| <= U32_MAX
    ensures AdvanceAll(SeqAt(isn, s), SeqAt(isn, p), payload, true, mss)
            == SeqAt(isn, Max(s, FinEnd(isn, p + |payload|)))
    decreases |payload|
  {
    if |payload| <= mss {
      assert payload[|payload|..] == [];
      ThenRest(isn, s, p, payload, mss, Max(s, FinEnd(isn, p + |payload|)), Max(s, FinEnd(isn, p + |payload|)));
    } else {
      var s' := FirstEnd(isn, s, p, mss, |payload|);
      AdvanceAllWithFin(isn, s', p + mss, payload[mss..], mss);
      ThenRest(isn, s, p, payload, mss, s', Max(s, FinEnd(isn, p + |payload|)));
    }
  }

  /** Where the first segment leaves the number, and that the last one decides. */
  lemma FirstEnd(isn: u32, s: nat, p: nat, size: nat, all: nat) returns (s': nat)
    requires size < all
    ensures s' == Max(s, FinEnd(isn, p + size)) && s <= s' <= Max(s, p + size + 1)
    ensures Max(s', FinEnd(isn, p + all)) == Max(s, FinEnd(isn, p + all))
  {
    s' := Max(s, FinEnd(isn, p + size));
  }

  lemma ThenRest(isn: u32, s: nat, p: nat, payload: seq<byte>, mss: nat, s': nat, end: nat)
    requires 0 < mss && 0 < |payload| <= U32_MAX && 0 < s
    requires
      var size := Min(mss, |payload|);
      && p + size < s + MAX_WINDOW && s + MAX_WINDOW < p + size + U32_MAX && s' == Max(s, FinEnd(isn, p + size))
      && AdvanceAll(SeqAt(isn, s'), SeqAt(isn, p + size), payload[size..], true, mss) == SeqAt(isn, end)
    ensures AdvanceAll(SeqAt(isn, s), SeqAt(isn, p), payload, true, mss) == SeqAt(isn, end)
  {
    var size := Min(mss, |payload|);
    FirstWithFin(isn, s, p, size);
    FinStep(payload, mss, SeqAt(isn, s), SeqAt(isn, p), SeqAt(isn, p + size), SeqAt(isn, s'), SeqAt(isn, end));
  }

  lemma FirstWithFin(isn: u32, s: nat, p: nat, size: nat)
    requires size <= U32_MAX && 0 < s && p + size < s + MAX_WINDOW && s + MAX_WINDOW < p + size + U32_MAX
    ensures SeqAt(isn, p + size) == Add(SeqAt(isn, p), size)
    ensures Advance(SeqAt(isn, s), SegmentEnd(SeqAt(isn, p + size), 0, true))
            == SeqAt(isn, Max(s, FinEnd(isn, p + size)))
  {
    SeqAtStep(isn, p, size);
    FinAdvance(isn, s, p + size);
  }

  lemma FinStep(payload: seq<byte>, mss: nat, sequence: u32, from: u32, end: u32, sequence': u32, result: u32)
    requires 0 < mss && 0 < |payload| <= U32_MAX && end == Add(from, Min(mss, |payload|))
    requires sequence' == Advance(sequence, SegmentEnd(end, 0, true))
    requires AdvanceAll(sequence', end, payload[Min(mss, |payload|)..], true, mss) == result
    ensures AdvanceAll(sequence, from, payload, true, mss) == result
  {
    assert SegmentEnd(from, Min(mss, |payload|), true) == SegmentEnd(end, 0, true);
  }

  // ---------------------------------------------------------------------------------------------
  // The invariant
  // ---------------------------------------------------------------------------------------------

  /** The FIN has left on a data frame. */
  ghost predicate Rode(log: seq<Frame>) {
    exists i :: 0 <= i < |log| && log[i].Data? && log[i].fin
  }

  /** No frame carries a FIN. */
  ghost predicate NoFin(frames: seq<Frame>) {
    forall i :: 0 <= i < |frames| ==> !frames[i].PureFin? && (frames[i].Data? ==> !frames[i].fin)
  }

  /** The position the FIN is sent at: right after the data, or one more if it was counted when it left. */
  ghost function FinAt(isn: u32, s: Sender): nat {
    if Rode(s.log) then FinEnd(isn, 1 + |s.stream|) else 1 + |s.stream|
  }

  /** Every FIN sent alone has the number of position `at`. */
  ghost predicate FinsAt(isn: u32, log: seq<Frame>, at: nat) {
    forall i :: 0 <= i < |log| && log[i].PureFin? ==> log[i].sequence == SeqAt(isn, at)
  }

  ghost predicate FinInv(isn: u32, s: Sender) {
    if !s.finished then NoFin(s.log)
    else
      && s.tx.sequence == SeqAt(isn, FinAt(isn, s) + if s.tx.cacheFin.None? then 1 else 0)
      && (s.tx.cacheFin.None? || !Rode(s.log) ==> s.tx.cache.bytes == [])
      && (s.tx.cacheFin.Some? ==> s.tx.cache.sequence == SeqAt(isn, 1 + s.acked))
      && FinsAt(isn, s.log, FinAt(isn, s))
  }

  lemma RodeAppend(a: seq<Frame>, b: seq<Frame>)
    ensures Rode(a + b) <==> Rode(a) || Rode(b)
  {
    if Rode(a) {
      var i :| 0 <= i < |a| && a[i].Data? && a[i].fin;
      assert (a + b)[i] == a[i];
    }
    if Rode(b) {
      var i :| 0 <= i < |b| && b[i].Data? && b[i].fin;
      assert (a + b)[|a| + i] == b[i];
    }
  }

  lemma NoFinAppend(a: seq<Frame>, b: seq<Frame>)
    requires NoFin(a) && NoFin(b)
    ensures NoFin(a + b)
  {
  }

  // ---------------------------------------------------------------------------------------------
  // Before the FIN
  // ---------------------------------------------------------------------------------------------

  /** A step that sends no FIN. */
  lemma QuietKeeps(isn: u32, s: Sender, frames: seq<Frame>, s': Sender)
    requires !s.finished && FinInv(isn, s) && !s'.finished && s'.log == s.log + frames && NoFin(frames)
    ensures FinInv(isn, s')
  {
    NoFinAppend(s.log, frames);
  }

  /** All segments of a payload carry the FIN, or none. */
  lemma SegmentsFin(tx: Tx, from: u32, payload: seq<byte>, fin: bool, env: Env)
    requires 0 < env.mss && |payload| <= U32_MAX
    ensures
      var segments := tx.Segments(from, payload, fin, env);
      && (payload != [] ==> segments != [])
      && forall i :: 0 <= i < |segments| ==> segments[i].Data? && segments[i].fin == fin
  {
    SegmentsRejoin(tx, from, payload, fin, env);
  }

  /** The FIN leaves on the last bytes of the queue. */
  lemma RideKeeps(isn: u32, s: Sender, env: Env)
    requires Core(isn, s) && s.tx.cacheSyn.None? && Established(isn, s) && FinInv(isn, s) && s.tx.queueFin
             && 0 < env.mss
    requires 0 < |s.tx.queue| == s.tx.Allowance(env.mss)
    ensures FinInv(isn, After(s, s.tx.SendQueued(|s.tx.queue|, env)))
    ensures Rode(After(s, s.tx.SendQueued(|s.tx.queue|, env)).log)
  {
    var tx, n := s.tx, |s.tx.queue|;
    var moved := Moved(tx, n, env).AppendCacheFin(env.now);
    assert tx.queue[..n] == tx.queue && tx.queue[n..] == [];
    var out := tx.SendQueued(n, env);
    assert out == moved.SendRaw(tx.sequence, tx.queue, true, env);
    RideNumber(isn, s, env);
    SegmentsFin(moved, tx.sequence, tx.queue, true, env);
    RodeJoins(isn, s, out);
  }

  lemma RodeJoins(isn: u32, s: Sender, out: Out)
    requires !s.finished && NoFin(s.log) && out.frames != [] && out.tx.cacheFin.Some?
    requires forall i :: 0 <= i < |out.frames| ==> out.frames[i].Data? && out.frames[i].fin
    requires out.tx.sequence == SeqAt(isn, FinEnd(isn, 1 + |s.stream|))
             && out.tx.cache.sequence == SeqAt(isn, 1 + s.acked)
    ensures FinInv(isn, After(s, out)) && Rode(After(s, out).log)
  {
    assert out.frames[0].Data? && out.frames[0].fin;
    RodeAppend(s.log, out.frames);
  }

  lemma RideNumber(isn: u32, s: Sender, env: Env)
    requires Core(isn, s) && Established(isn, s) && s.tx.queue != []
             && |s.tx.cache.bytes| + |s.tx.queue| <= s.tx.cache.capacity && 0 < env.mss
    ensures |s.tx.queue| <= U32_MAX
    ensures AdvanceAll(s.tx.sequence, s.tx.sequence, s.tx.queue, true, env.mss)
            == SeqAt(isn, FinEnd(isn, 1 + |s.stream|))
  {
    var p := 1 + s.acked + |s.tx.cache.bytes|;
    assert p + |s.tx.queue| == 1 + |s.stream| by {
      assert |s.tx.cache.bytes + s.tx.queue| == |s.stream[s.acked..]|;
    }
    AdvanceAllWithFin(isn, p, p, s.tx.queue, env.mss);
  }

  /** The FIN leaves alone: nothing is cached or queued. */
  lemma AloneKeeps(isn: u32, s: Sender, env: Env)
    requires Core(isn, s) && s.tx.cacheSyn.None? && Established(isn, s) && FinInv(isn, s) && s.tx.queueFin
    requires s.tx.cache.bytes == [] && s.tx.queue == []
    ensures FinInv(isn, After(s, s.tx.SendQueuedFin(env))) && !Rode(After(s, s.tx.SendQueuedFin(env)).log)
  {
    var out := s.tx.SendQueuedFin(env);
    assert s.acked == |s.stream| by {
      assert |s.tx.cache.bytes + s.tx.queue| == |s.stream[s.acked..]|;
    }
    RodeAppend(s.log, out.frames);
    assert !Rode(out.frames) && !Rode(s.log);
  }

  lemma SendTcpAckFin(isn: u32, s: Sender, env: Env)
    requires Core(isn, s) && FinInv(isn, s) && 0 < env.mss && !FinOvertakes(s.tx) && !s.finished
    ensures FinInv(isn, After(s, s.tx.SendTcpAck(env)))
    ensures s.tx.SendTcpAck(env).tx.cacheFin.Some? ==>
              (Rode(After(s, s.tx.SendTcpAck(env)).log) <==> s.tx.queue != [])
  {
    var out := s.tx.SendTcpAck(env);
    if s.tx.cacheSyn.Some? {
      QuietKeeps(isn, s, out.frames, After(s, out));
    } else {
      var size := s.tx.Allowance(env.mss);
      if s.tx.sendWindow > 0 && size > 0 {
        SendQueuedKeeps(isn, s, size, env);
        var sent := s.tx.SendQueued(size, env);
        assert out.tx == sent.tx && out.frames == sent.frames + [] == sent.frames;
        if size == |s.tx.queue| && s.tx.queueFin {
          RideKeeps(isn, s, env);
        } else {
          assert s.tx.queue[size..] == [] ==> size == |s.tx.queue|;
          SegmentsFin(Moved(s.tx, size, env), s.tx.sequence, s.tx.queue[..size], false, env);
          QuietKeeps(isn, s, out.frames, After(s, out));
        }
      } else {
        assert out.tx == s.tx.SendQueuedFin(env).tx
               && out.frames == [] + s.tx.SendQueuedFin(env).frames == s.tx.SendQueuedFin(env).frames;
        if s.tx.queueFin && s.tx.cache.bytes == [] {
          AloneKeeps(isn, s, env);
        } else {
          QuietKeeps(isn, s, out.frames, After(s, out));
        }
      }
    }
  }

  // ---------------------------------------------------------------------------------------------
  // After the FIN
  // ---------------------------------------------------------------------------------------------

  /** A step after the FIN that keeps the number and sends data only if the FIN rode on data. */
  lemma FinishedKeeps(isn: u32, s: Sender, out: Out)
    requires s.finished && FinInv(isn, s) && out.tx.sequence == s.tx.sequence
    requires out.tx.cacheFin.Some? == s.tx.cacheFin.Some? && out.tx.cache.bytes == s.tx.cache.bytes
    requires out.tx.cache.sequence == s.tx.cache.sequence
    requires Rode(out.frames) ==> Rode(s.log)
    requires forall i :: 0 <= i < |out.frames| && out.frames[i].PureFin? ==>
               s.tx.cacheFin.Some? && out.frames[i].sequence == s.tx.sequence
    ensures FinInv(isn, After(s, out))
  {
    RodeAppend(s.log, out.frames);
    var log := s.log + out.frames;
    forall i | 0 <= i < |log| && log[i].PureFin?
      ensures log[i].sequence == SeqAt(isn, FinAt(isn, s))
    {
      if i >= |s.log| {
        assert log[i] == out.frames[i - |s.log|];
      }
    }
  }

  /** Sending cached bytes again, with or without the FIN, never moves the number once a FIN has left. */
  lemma ResendStays(isn: u32, s: Sender, from: u32, d: nat, payload: seq<byte>, fin: bool, env: Env)
    requires Core(isn, s) && FinInv(isn, s) && s.finished && 0 < env.mss
    requires payload != [] && d + |payload| <= |s.tx.cache.bytes| && payload == s.tx.cache.bytes[d..d + |payload|]
    requires from == Add(s.tx.cache.sequence, d)
    ensures s.tx.SendRaw(from, payload, fin, env).tx == s.tx && Rode(s.log)
  {
    CachedIsSlice(isn, s, from, d, payload);
    var p, at := 1 + s.acked + d, FinAt(isn, s);
    assert |s.tx.cache.bytes| == |s.stream| - s.acked;
    BehindStays(isn, at, p, payload, fin, env.mss);
  }

  /** Segments that end behind the number leave it alone. */
  lemma BehindStays(isn: u32, at: nat, p: nat, payload: seq<byte>, fin: bool, mss: nat)
    requires 0 < mss && payload != [] && 0 < at && FinEnd(isn, p + |payload|) <= at && at <= p + MAX_WINDOW + 1
    requires |payload| < MAX_WINDOW
    ensures AdvanceAll(SeqAt(isn, at), SeqAt(isn, p), payload, fin, mss) == SeqAt(isn, at)
  {
    if fin {
      AdvanceAllWithFin(isn, at, p, payload, mss);
    } else {
      AdvanceAllByPosition(isn, at, p, payload, mss);
    }
  }

  lemma FastRetransmitFin(isn: u32, s: Sender, env: Env)
    requires Core(isn, s) && FinInv(isn, s) && 0 < env.mss
    ensures FinInv(isn, After(s, s.tx.RetransmitAll(env)))
  {
    var out := s.tx.RetransmitAll(env);
    if s.tx.cache.bytes != [] {
      var fin := s.tx.cacheFin.Some?;
      SegmentsFin(s.tx, s.tx.cache.sequence, s.tx.cache.bytes, fin, env);
      if s.finished {
        ResendStays(isn, s, s.tx.cache.sequence, 0, s.tx.cache.bytes, fin, env);
      }
    }
    if s.finished {
      FinishedKeeps(isn, s, out);
    } else {
      QuietKeeps(isn, s, out.frames, After(s, out));
    }
  }

  /** Timers are not part of the invariant. */
  lemma RetimedFin(isn: u32, s: Sender, tx: Tx)
    requires FinInv(isn, s) && tx.sequence == s.tx.sequence && tx.cacheFin.Some? == s.tx.cacheFin.Some?
    requires tx.cache.bytes == s.tx.cache.bytes && tx.cache.sequence == s.tx.cache.sequence
    ensures FinInv(isn, s.(tx := tx))
  {
  }

  lemma TickFin(isn: u32, s: Sender, env: Env)
    requires Core(isn, s) && FinInv(isn, s) && 0 < env.mss
    ensures FinInv(isn, Step(s, Event.Tick, env))
  {
    TickedKeeps(isn, s, env);
    var t := Ticked(s.tx, env);
    var s1 := s.(tx := t);
    var out := s.tx.Tick(env);
    RetimedFin(isn, s, t);
    assert Step(s, Event.Tick, env) == After(s1, out);
    if |t.cache.bytes| > 0 {
      var payload := TickPayload(s.tx, env);
      var fin := |t.cache.bytes| == |payload| && s.tx.cacheFin.Some?;
      TickSends(s.tx, env);
      ResendFin(isn, s1, payload, fin, env);
    } else if s.finished {
      FinishedKeeps(isn, s1, out);
    } else {
      QuietKeeps(isn, s1, out.frames, After(s1, out));
    }
  }

  /** A prefix of the cache sent again. */
  lemma ResendFin(isn: u32, s: Sender, payload: seq<byte>, fin: bool, env: Env)
    requires Core(isn, s) && FinInv(isn, s) && 0 < env.mss && (fin ==> s.tx.cacheFin.Some?)
    requires payload <= s.tx.cache.bytes
    ensures FinInv(isn, After(s, s.tx.SendRaw(s.tx.cache.sequence, payload, fin, env)))
  {
    var out := s.tx.SendRaw(s.tx.cache.sequence, payload, fin, env);
    SegmentsFin(s.tx, s.tx.cache.sequence, payload, fin, env);
    if s.finished {
      if payload != [] {
        ResendStays(isn, s, s.tx.cache.sequence, 0, payload, fin, env);
      }
      FinishedKeeps(isn, s, out);
    } else {
      QuietKeeps(isn, s, out.frames, After(s, out));
    }
  }

  // ---------------------------------------------------------------------------------------------
  // Selective retransmission
  // ---------------------------------------------------------------------------------------------

  /** One range: data only, under a FIN only if there is one. */
  lemma RangeFin(isn: u32, s: Sender, range: Range, env: Env)
    requires Core(isn, s) && FinInv(isn, s) && s.tx.cacheSyn.None? && 0 < env.mss
    requires range.0 > 0 || s.tx.cache.sequence == 0
    ensures FinInv(isn, After(s, s.tx.SendRange(range, env)))
  {
    var out := s.tx.SendRange(range, env);
    match s.tx.cache.Get(range.0, Sub(range.1, range.0)) {
      case Failed(_) => AfterNothing(s);
      case Got(payload) =>
        if payload == [] {
          AfterNothing(s);
        } else {
          AddUndoesSub(range.0, s.tx.cache.sequence);
          var fin := range.1 == s.tx.cache.RecvNext() && s.tx.cacheFin.Some?;
          SegmentsFin(s.tx, range.0, payload, fin, env);
          if s.finished {
            ResendStays(isn, s, range.0, Sub(range.0, s.tx.cache.sequence), payload, fin, env);
            FinishedKeeps(isn, s, out);
          } else {
            QuietKeeps(isn, s, out.frames, After(s, out));
          }
        }
    }
  }

  lemma {:induction false} RangesFin(isn: u32, s: Sender, ranges: seq<Range>, env: Env)
    requires Core(isn, s) && FinInv(isn, s) && s.tx.cacheSyn.None? && 0 < env.mss
             && Reachable(s.tx.cache.sequence, ranges)
    ensures FinInv(isn, After(s, s.tx.SendRanges(ranges, env)))
    decreases |ranges|
  {
    if ranges == [] {
      AfterNothing(s);
    } else {
      SendRangeKeeps(isn, s, ranges[0], env);
      RangeFin(isn, s, ranges[0], env);
      var first := s.tx.SendRange(ranges[0], env);
      if first.ok {
        RangesFin(isn, After(s, first), ranges[1..], env);
        AfterTwice(s, first, first.tx.SendRanges(ranges[1..], env));
      }
    }
  }

  lemma SelectiveFin(isn: u32, s: Sender, blocks: seq<Range>, env: Env)
    requires Core(isn, s) && FinInv(isn, s) && s.tx.cacheSyn.None? && 0 < env.mss
             && Allowed(isn, s, SelectiveRetransmit(blocks))
    ensures FinInv(isn, After(s, s.tx.RetransmitWithout(blocks, env)))
  {
    var whole := (s.tx.cache.sequence, s.tx.cache.RecvNext());
    var ranges := SubtractAll([whole], blocks);
    SubtractStarts(s.tx.cache.sequence, [whole], blocks);
    RangesFin(isn, s, ranges, env);
    var sent := s.tx.SendRanges(ranges, env);
    if sent.ok && ranges == [] && sent.tx.cacheFin.Some? {
      var s1 := After(s, sent);
      var alone := Out(sent.tx, [sent.tx.FinFrame(env)], true);
      assert s.finished;
      FinishedKeeps(isn, s1, alone);
      AfterTwice(s, sent, alone);
    }
  }

  lemma SelectiveOpeningFin(isn: u32, s: Sender, blocks: seq<Range>, env: Env)
    requires Core(isn, s) && FinInv(isn, s) && s.tx.cacheSyn.Some? && 0 < env.mss
    ensures FinInv(isn, After(s, s.tx.RetransmitWithout(blocks, env)))
  {
    SendRangesFromEmpty(s.tx, SubtractAll([(s.tx.cache.sequence, s.tx.cache.RecvNext())], blocks), env);
    assert s.log + [] == s.log;
  }

  // ---------------------------------------------------------------------------------------------
  // Acknowledgements
  // ---------------------------------------------------------------------------------------------

  /**
   * What an acknowledgement of position `t` means for a FIN in flight: it is dropped exactly from
   * the end of the data on, with an empty cache; before that the cache still starts at the first
   * unacknowledged byte.
   */
  lemma AcksFinIff(isn: u32, q: QueueState, base: nat, t: nat, now: nat)
    requires q.Ok() && q.capacity < MAX_WINDOW && q.sequence == SeqAt(isn, base)
    requires t <= base + |q.bytes| + 1 && base + |q.bytes| + MAX_WINDOW < t + U32_MAX
    ensures
      var q' := q.InvalidateTo(SeqAt(isn, t), now).0;
      var n := if Ahead(SeqAt(isn, t), q.sequence) then Min(Sub(SeqAt(isn, t), q.sequence), |q.bytes|) else 0;
      && (Ahead(SeqAt(isn, t), q'.RecvNext()) <==> base + |q.bytes| <= t)
      && (base + |q.bytes| <= t || q.bytes == [] ==> q'.bytes == [])
      && (t < base + |q.bytes| ==> q'.sequence == SeqAt(isn, base + n))
  {
    AckCache(isn, q, base, t, now);
    CacheEndAhead(isn, q, base, t, now);
  }

  lemma AcknowledgeFin(isn: u32, s: Sender, ack: u32, sendWindow: nat, env: Env)
    requires Core(isn, s) && FinInv(isn, s) && 0 < env.mss && Allowed(isn, s, Event.Acknowledge(ack, sendWindow))
    ensures FinInv(isn, Step(s, Event.Acknowledge(ack, sendWindow), env))
  {
    AcknowledgeDoes(s, ack, sendWindow, env);
    if s.finished {
      var t: nat :| AckAt(isn, s, ack, t);
      var base := if s.tx.cache.sequence == SeqAt(isn, 1 + s.acked) then 1 + s.acked else 2 + s.acked;
      AcksFinIff(isn, s.tx.cache, base, t, env.now);
      AcknowledgeDropsFin(s.tx, ack, env.now);
      DroppedKeeps(isn, s, Step(s, Event.Acknowledge(ack, sendWindow), env), s.tx.AcksFin(ack, env.now));
    }
  }

  lemma DroppedKeeps(isn: u32, s: Sender, s': Sender, dropped: bool)
    requires s.finished && FinInv(isn, s) && s'.finished && s'.log == s.log && s'.stream == s.stream
    requires dropped ==> s.tx.cacheFin.Some? && s'.tx.cache.bytes == []
    requires s.tx.cache.bytes == [] ==> s'.tx.cache.bytes == []
    requires s'.tx.cacheFin.None? <==> s.tx.cacheFin.None? || dropped
    requires s'.tx.sequence == if dropped then Add(s.tx.sequence, 1) else s.tx.sequence
    requires s'.tx.cacheFin.Some? ==> s'.tx.cache.sequence == SeqAt(isn, 1 + s'.acked)
    ensures FinInv(isn, s')
  {
    SeqAtStep(isn, FinAt(isn, s), 1);
  }

  lemma AcknowledgeDropsFin(tx: Tx, ack: u32, now: nat)
    requires tx.WellSized()
    ensures tx.Acknowledge(ack, now).cacheFin.None? <==> tx.cacheFin.None? || tx.AcksFin(ack, now)
  {
  }

  // ---------------------------------------------------------------------------------------------
  // Every step
  // ---------------------------------------------------------------------------------------------

  lemma ForwardFin(isn: u32, s: Sender, payload: seq<byte>, env: Env)
    requires Core(isn, s) && FinInv(isn, s) && 0 < env.mss && Allowed(isn, s, Forward(payload))
    ensures FinInv(isn, Step(s, Forward(payload), env))
  {
    if Refuses(s.tx) {
      assert s.log + [] == s.log;
      assert Step(s, Forward(payload), env) == s;
    } else {
      ForwardedCore(isn, s, payload);
      var s1 := s.(tx := s.tx.(queue := s.tx.queue + payload), stream := s.stream + payload);
      SendTcpAckFin(isn, s1, env);
      assert Step(s, Forward(payload), env) == After(s1, s1.tx.SendTcpAck(env));
    }
  }

  /** Every region under the mutex keeps the number of the FIN. */
  lemma FinKeeps(isn: u32, s: Sender, e: Event, env: Env)
    requires Core(isn, s) && FinInv(isn, s) && 0 < env.mss && Allowed(isn, s, e)
    ensures FinInv(isn, Step(s, e, env))
  {
    match e {
      case Forward(payload) => ForwardFin(isn, s, payload, env);
      case Close =>
        var s1 := s.(tx := s.tx.(queueFin := true), closed := true);
        SendTcpAckFin(isn, s1, env);
        assert Step(s, Close, env) == After(s1, s1.tx.SendTcpAck(env));
      case Tick => TickFin(isn, s, env);
      case Acknowledge(ack, sendWindow) => AcknowledgeFin(isn, s, ack, sendWindow, env);
      case FastRetransmit => FastRetransmitFin(isn, s, env);
      case SelectiveRetransmit(blocks) =>
        if s.tx.cacheSyn.Some? {
          SelectiveOpeningFin(isn, s, blocks, env);
        } else {
          SelectiveFin(isn, s, blocks, env);
        }
      case SendMore => SendMoreFin(isn, s, env);
      case SetSacks(filled) => assert s.log + [] == s.log;
      case Reply(acknowledgement, window) => ReplyFin(isn, s, acknowledgement, window, env);
    }
  }

  lemma SendMoreFin(isn: u32, s: Sender, env: Env)
    requires Core(isn, s) && FinInv(isn, s) && 0 < env.mss && !FinOvertakes(s.tx)
    ensures FinInv(isn, Step(s, SendMore, env))
  {
    var out := s.tx.SendTcpAck(env);
    assert Step(s, SendMore, env) == After(s, out);
    if s.finished {
      assert out.frames == [] + [];
      FinishedKeeps(isn, s, out);
    } else {
      SendTcpAckFin(isn, s, env);
    }
  }

  lemma ReplyFin(isn: u32, s: Sender, acknowledgement: u32, window: nat, env: Env)
    requires Core(isn, s) && FinInv(isn, s) && 0 < env.mss
    ensures FinInv(isn, Step(s, Reply(acknowledgement, window), env))
  {
    var out := React(s.tx, Reply(acknowledgement, window), env);
    if s.finished {
      FinishedKeeps(isn, s, out);
    } else {
      QuietKeeps(isn, s, out.frames, After(s, out));
    }
  }
}
