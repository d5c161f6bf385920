/**
 * Selective retransmission (src/lib.rs:718-796) sends exactly the cached bytes that no SACK block
 * covers, each once and under its own sequence number, and none of its cache reads fails.
 */
module SelectiveRetransmission {
  import opened Basics
  import opened SequenceNumbers
  import opened SendQueue
  import opened SequenceRanges
  import opened Transmit
  import opened FinNumbers

  /**
   * Frame `i` carries the cached bytes from stream position `positions[i]` on, under that number;
   * the frames are in order, do not overlap, and stay in `[lo, hi)`. The cache starts at `base`.
   */
  ghost predicate Located(isn: u32, bytes: seq<byte>, base: nat, frames: seq<Frame>, positions: seq<nat>,
                          lo: nat, hi: nat) {
    && |positions| == |frames|
    && (forall i :: 0 <= i < |frames| ==> CarriesAt(isn, bytes, base, frames[i], positions[i], lo, hi))
    && (forall i, j :: 0 <= i < j < |frames| ==> positions[i] + |frames[i].payload| <= positions[j])
  }

  ghost predicate CarriesAt(isn: u32, bytes: seq<byte>, base: nat, f: Frame, pos: nat, lo: nat, hi: nat) {
    && f.Data? && 0 < |f.payload|
    && base <= lo <= pos && pos + |f.payload| <= hi <= base + |bytes|
    && f.sequence == SeqAt(isn, pos)
    && f.payload == bytes[pos - base..pos - base + |f.payload|]
  }

  ghost predicate Carried(frames: seq<Frame>, positions: seq<nat>, x: nat)
    requires |positions| == |frames|
  {
    exists i :: 0 <= i < |frames| && frames[i].Data? && positions[i] <= x < positions[i] + |frames[i].payload|
  }

  lemma LocatedAppend(isn: u32, bytes: seq<byte>, base: nat, f: seq<Frame>, p: seq<nat>, g: seq<Frame>,
                      q: seq<nat>, lo: nat, mid: nat, hi: nat)
    requires lo <= mid <= hi <= base + |bytes| && base <= lo
    requires Located(isn, bytes, base, f, p, lo, mid) && Located(isn, bytes, base, g, q, mid, hi)
    ensures Located(isn, bytes, base, f + g, p + q, lo, hi)
  {
    var n := |f|;
    forall i | 0 <= i < |f + g|
      ensures CarriesAt(isn, bytes, base, (f + g)[i], (p + q)[i], lo, hi)
    {
      if i < n {
        assert CarriesAt(isn, bytes, base, f[i], p[i], lo, mid);
      } else {
        assert CarriesAt(isn, bytes, base, g[i - n], q[i - n], mid, hi);
      }
    }
    forall i, j | 0 <= i < j < |f + g|
      ensures (p + q)[i] + |(f + g)[i].payload| <= (p + q)[j]
    {
      if i < n <= j {
        assert CarriesAt(isn, bytes, base, f[i], p[i], lo, mid);
        assert CarriesAt(isn, bytes, base, g[j - n], q[j - n], mid, hi);
      }
    }
  }

  lemma CarriedAppend(f: seq<Frame>, p: seq<nat>, g: seq<Frame>, q: seq<nat>, x: nat)
    requires |p| == |f| && |q| == |g|
    ensures Carried(f + g, p + q, x) <==> Carried(f, p, x) || Carried(g, q, x)
  {
    if Carried(f, p, x) {
      var i :| 0 <= i < |f| && f[i].Data? && p[i] <= x < p[i] + |f[i].payload|;
      assert (f + g)[i] == f[i] && (p + q)[i] == p[i];
    }
    if Carried(g, q, x) {
      var i :| 0 <= i < |g| && g[i].Data? && q[i] <= x < q[i] + |g[i].payload|;
      assert (f + g)[|f| + i] == g[i] && (p + q)[|f| + i] == q[i];
    }
  }

  /** The segments of one range carry exactly its bytes. */
  lemma {:induction false} SegmentsCarry(isn: u32, tx: Tx, bytes: seq<byte>, base: nat, lo: nat, hi: nat,
                                         fin: bool, env: Env)
    returns (positions: seq<nat>)
    requires base <= lo <= hi <= base + |bytes| && |bytes| <= U32_MAX && 0 < env.mss
    ensures
      var frames := tx.Segments(SeqAt(isn, lo), bytes[lo - base..hi - base], fin, env);
      && Located(isn, bytes, base, frames, positions, lo, hi)
      && forall x: nat :: Carried(frames, positions, x) <==> lo <= x < hi
    decreases hi - lo
  {
    var payload := bytes[lo - base..hi - base];
    if lo == hi {
      positions := [];
      assert tx.Segments(SeqAt(isn, lo), payload, fin, env) == [];
    } else {
      var size := Min(env.mss, |payload|);
      var rest := SegmentsCarry(isn, tx, bytes, base, lo + size, hi, fin, env);
      FirstSegment(isn, tx, bytes, base, lo, hi, fin, env, size);
      var first := Data(SeqAt(isn, lo), tx.acknowledgement, tx.ReportedWindow(env), fin, payload[..size]);
      var tail := tx.Segments(SeqAt(isn, lo + size), bytes[lo + size - base..hi - base], fin, env);
      positions := [lo] + rest;
      LocatedAppend(isn, bytes, base, [first], [lo], tail, rest, lo, lo + size, hi);
      CarriedCons(first, lo, tail, rest, hi);
    }
  }

  lemma FirstSegment(isn: u32, tx: Tx, bytes: seq<byte>, base: nat, lo: nat, hi: nat, fin: bool, env: Env, size: nat)
    requires base <= lo < hi <= base + |bytes| && |bytes| <= U32_MAX && 0 < env.mss && size == Min(env.mss, hi - lo)
    ensures
      var payload := bytes[lo - base..hi - base];
      var first := Data(SeqAt(isn, lo), tx.acknowledgement, tx.ReportedWindow(env), fin, payload[..size]);
      var tail := tx.Segments(SeqAt(isn, lo + size), bytes[lo + size - base..hi - base], fin, env);
      && tx.Segments(SeqAt(isn, lo), payload, fin, env) == [first] + tail
      && Located(isn, bytes, base, [first], [lo], lo, lo + size)
  {
    var payload := bytes[lo - base..hi - base];
    assert payload[size..] == bytes[lo + size - base..hi - base];
    assert payload[..size] == bytes[lo - base..lo - base + size];
    SeqAtStep(isn, lo, size);
  }

  lemma CarriedCons(first: Frame, lo: nat, tail: seq<Frame>, rest: seq<nat>, hi: nat)
    requires first.Data? && |tail| == |rest| && lo + |first.payload| <= hi
    requires forall x: nat :: Carried(tail, rest, x) <==> lo + |first.payload| <= x < hi
    ensures forall x: nat :: Carried([first] + tail, [lo] + rest, x) <==> lo <= x < hi
  {
    forall x: nat
      ensures Carried([first] + tail, [lo] + rest, x) <==> lo <= x < hi
    {
      CarriedAppend([first], [lo], tail, rest, x);
      assert [first][0] == first && [lo][0] == lo;
    }
  }

  /** A range inside the cache reads the bytes between its ends. */
  lemma ReadRange(isn: u32, tx: Tx, base: nat, span: Span)
    requires tx.WellSized() && |tx.cache.bytes| <= MAX_WINDOW && tx.cache.sequence == SeqAt(isn, base)
    requires base <= span.0 <= span.1 <= base + |tx.cache.bytes|
    ensures
      var range := Number(isn, span);
      tx.cache.Get(range.0, Sub(range.1, range.0)) == Got(tx.cache.bytes[span.0 - base..span.1 - base])
  {
    AheadByPosition(isn, base, span.0);
    AheadByPosition(isn, span.0, span.1);
  }

  /** The sending loop over ranges that stand for tidy spans of the cache. */
  lemma {:induction false} RangesCarry(isn: u32, tx: Tx, base: nat, lo: nat, spans: seq<Span>, env: Env)
    returns (positions: seq<nat>)
    requires tx.WellSized() && |tx.cache.bytes| <= MAX_WINDOW && tx.cache.sequence == SeqAt(isn, base) && 0 < env.mss
    requires base <= lo <= base + |tx.cache.bytes| && Tidy(spans, lo, base + |tx.cache.bytes|)
    ensures
      var out := tx.SendRanges(Numbers(isn, spans), env);
      && out.ok
      && Located(isn, tx.cache.bytes, base, out.frames, positions, lo, base + |tx.cache.bytes|)
      && forall x: nat :: Carried(out.frames, positions, x) <==> InSpans(spans, x)
    decreases |spans|
  {
    if spans == [] {
      positions := [];
    } else {
      positions := RangeThenRest(isn, tx, base, lo, spans, env);
    }
  }

  lemma RangeThenRest(isn: u32, tx: Tx, base: nat, lo: nat, spans: seq<Span>, env: Env)
    returns (positions: seq<nat>)
    requires tx.WellSized() && |tx.cache.bytes| <= MAX_WINDOW && tx.cache.sequence == SeqAt(isn, base) && 0 < env.mss
    requires base <= lo <= base + |tx.cache.bytes| && Tidy(spans, lo, base + |tx.cache.bytes|) && spans != []
    ensures
      var out := tx.SendRanges(Numbers(isn, spans), env);
      && out.ok
      && Located(isn, tx.cache.bytes, base, out.frames, positions, lo, base + |tx.cache.bytes|)
      && forall x: nat :: Carried(out.frames, positions, x) <==> InSpans(spans, x)
    decreases |spans|, 0
  {
    var bytes, hi := tx.cache.bytes, base + |tx.cache.bytes|;
    var span, rest := spans[0], spans[1..];
    var sent := tx.SendRange(Number(isn, span), env);
    var first := RangeCarries(isn, tx, base, span, env);
    var more := RangesCarry(isn, sent.tx, base, span.1, rest, env);
    var tail := sent.tx.SendRanges(Numbers(isn, rest), env).frames;
    positions := first + more;
    SendRangesFirst(isn, tx, spans, env);
    LocatedRest(isn, bytes, base, sent.frames, first, tail, more, lo, span, hi);
    CarriedRest(sent.frames, first, tail, more, spans);
  }

  /** One range reads its bytes and sends exactly those; one that reads empty sends nothing. */
  lemma RangeCarries(isn: u32, tx: Tx, base: nat, span: Span, env: Env) returns (positions: seq<nat>)
    requires tx.WellSized() && |tx.cache.bytes| <= MAX_WINDOW && tx.cache.sequence == SeqAt(isn, base) && 0 < env.mss
    requires base <= span.0 <= span.1 <= base + |tx.cache.bytes|
    ensures
      var out := tx.SendRange(Number(isn, span), env);
      && out.ok
      && Located(isn, tx.cache.bytes, base, out.frames, positions, span.0, span.1)
      && forall x: nat :: Carried(out.frames, positions, x) <==> span.0 <= x < span.1
  {
    var fin := RangeSends(isn, tx, base, span, env);
    positions := SegmentsCarry(isn, tx, tx.cache.bytes, base, span.0, span.1, fin, env);
  }

  lemma RangeSends(isn: u32, tx: Tx, base: nat, span: Span, env: Env) returns (fin: bool)
    requires tx.WellSized() && |tx.cache.bytes| <= MAX_WINDOW && tx.cache.sequence == SeqAt(isn, base) && 0 < env.mss
    requires base <= span.0 <= span.1 <= base + |tx.cache.bytes|
    ensures
      var out := tx.SendRange(Number(isn, span), env);
      out.ok && out.frames == tx.Segments(SeqAt(isn, span.0), tx.cache.bytes[span.0 - base..span.1 - base], fin, env)
    ensures fin <==> tx.cacheFin.Some? && span.1 == base + |tx.cache.bytes|
  {
    ReadRange(isn, tx, base, span);
    fin := SeqAt(isn, span.1) == tx.cache.RecvNext() && tx.cacheFin.Some?;
    SeqAtStep(isn, base, |tx.cache.bytes|);
    Distance(isn, span.1, base + |tx.cache.bytes|);
    RangeFrames(tx, Number(isn, span), tx.cache.bytes[span.0 - base..span.1 - base], fin, env);
  }

  lemma RangeFrames(tx: Tx, range: Range, payload: seq<byte>, fin: bool, env: Env)
    requires tx.WellSized() && 0 < env.mss && |payload| <= U32_MAX
    requires tx.cache.Get(range.0, Sub(range.1, range.0)) == Got(payload)
    requires fin == (range.1 == tx.cache.RecvNext() && tx.cacheFin.Some?)
    ensures tx.SendRange(range, env).ok && tx.SendRange(range, env).frames == tx.Segments(range.0, payload, fin, env)
  {
  }

  /** The frame lies in one of the ranges and carries the FIN exactly if that range is the end of the cache. */
  ghost predicate Flagged(isn: u32, f: Frame, spans: seq<Span>, end: nat, hasFin: bool) {
    f.Data? && exists j: nat, pos: nat :: j < |spans| && LiesIn(isn, f, spans[j], pos)
                                          && (f.fin <==> hasFin && spans[j].1 == end)
  }

  ghost predicate LiesIn(isn: u32, f: Frame, span: Span, pos: nat)
    requires f.Data?
  {
    f.sequence == SeqAt(isn, pos) && span.0 <= pos && pos + |f.payload| <= span.1
  }

  lemma RangeFlags(isn: u32, tx: Tx, base: nat, span: Span, env: Env)
    requires tx.WellSized() && |tx.cache.bytes| <= MAX_WINDOW && tx.cache.sequence == SeqAt(isn, base) && 0 < env.mss
    requires base <= span.0 <= span.1 <= base + |tx.cache.bytes|
    ensures
      var out := tx.SendRange(Number(isn, span), env);
      forall i :: 0 <= i < |out.frames| ==>
        Flagged(isn, out.frames[i], [span], base + |tx.cache.bytes|, tx.cacheFin.Some?)
  {
    var fin := RangeSends(isn, tx, base, span, env);
    SegmentsFlag(isn, tx, tx.cache.bytes, base, span, fin, env, base + |tx.cache.bytes|, tx.cacheFin.Some?);
  }

  lemma SegmentsFlag(isn: u32, tx: Tx, bytes: seq<byte>, base: nat, span: Span, fin: bool, env: Env, end: nat,
                     hasFin: bool)
    requires base <= span.0 <= span.1 <= base + |bytes| && |bytes| <= U32_MAX && 0 < env.mss
    requires fin <==> hasFin && span.1 == end
    ensures
      var frames := tx.Segments(SeqAt(isn, span.0), bytes[span.0 - base..span.1 - base], fin, env);
      forall i :: 0 <= i < |frames| ==> Flagged(isn, frames[i], [span], end, hasFin)
  {
    var payload := bytes[span.0 - base..span.1 - base];
    SegmentsFin(tx, SeqAt(isn, span.0), payload, fin, env);
    var positions := SegmentsCarry(isn, tx, bytes, base, span.0, span.1, fin, env);
    var frames := tx.Segments(SeqAt(isn, span.0), payload, fin, env);
    forall i | 0 <= i < |frames|
      ensures Flagged(isn, frames[i], [span], end, hasFin)
    {
      assert CarriesAt(isn, bytes, base, frames[i], positions[i], span.0, span.1);
      FlaggedIn(isn, frames[i], span, positions[i], end, hasFin);
    }
  }

  lemma FlaggedIn(isn: u32, f: Frame, span: Span, pos: nat, end: nat, hasFin: bool)
    requires f.Data? && LiesIn(isn, f, span, pos) && (f.fin <==> hasFin && span.1 == end)
    ensures Flagged(isn, f, [span], end, hasFin)
  {
    assert LiesIn(isn, f, [span][0], pos);
  }

  lemma FlaggedWider(isn: u32, f: Frame, a: seq<Span>, spans: seq<Span>, b: seq<Span>, end: nat, hasFin: bool)
    requires Flagged(isn, f, spans, end, hasFin)
    ensures Flagged(isn, f, a + spans + b, end, hasFin)
  {
    var j: nat, pos: nat :| j < |spans| && LiesIn(isn, f, spans[j], pos) && (f.fin <==> hasFin && spans[j].1 == end);
    assert (a + spans + b)[|a| + j] == spans[j];
  }

  /** Which frames of a selective retransmission carry the FIN. */
  lemma {:induction false} RangesFlag(isn: u32, tx: Tx, base: nat, spans: seq<Span>, env: Env)
    requires tx.WellSized() && |tx.cache.bytes| <= MAX_WINDOW && tx.cache.sequence == SeqAt(isn, base) && 0 < env.mss
    requires forall i :: 0 <= i < |spans| ==> base <= spans[i].0 <= spans[i].1 <= base + |tx.cache.bytes|
    ensures
      var out := tx.SendRanges(Numbers(isn, spans), env);
      forall i :: 0 <= i < |out.frames| ==>
        Flagged(isn, out.frames[i], spans, base + |tx.cache.bytes|, tx.cacheFin.Some?)
    decreases |spans|
  {
    if spans != [] {
      var end, has := base + |tx.cache.bytes|, tx.cacheFin.Some?;
      var span, rest := spans[0], spans[1..];
      var sent := tx.SendRange(Number(isn, span), env);
      var fin := RangeSends(isn, tx, base, span, env);
      RangeFlags(isn, tx, base, span, env);
      RangesFlag(isn, sent.tx, base, rest, env);
      SendRangesFirst(isn, tx, spans, env);
      var tail := sent.tx.SendRanges(Numbers(isn, rest), env).frames;
      assert spans == [span] + rest;
      FlagsJoin(isn, sent.frames, tail, span, rest, end, has);
    }
  }

  lemma FlagsJoin(isn: u32, f: seq<Frame>, g: seq<Frame>, span: Span, rest: seq<Span>, end: nat, hasFin: bool)
    requires forall i :: 0 <= i < |f| ==> Flagged(isn, f[i], [span], end, hasFin)
    requires forall i :: 0 <= i < |g| ==> Flagged(isn, g[i], rest, end, hasFin)
    ensures forall i :: 0 <= i < |f + g| ==> Flagged(isn, (f + g)[i], [span] + rest, end, hasFin)
  {
    assert [] + [span] + rest == [span] + rest == [span] + rest + [];
    forall i | 0 <= i < |f + g|
      ensures Flagged(isn, (f + g)[i], [span] + rest, end, hasFin)
    {
      if i < |f| {
        FlaggedWider(isn, f[i], [], [span], rest, end, hasFin);
      } else {
        FlaggedWider(isn, g[i - |f|], [span], rest, [], end, hasFin);
      }
    }
  }

  lemma LocatedRest(isn: u32, bytes: seq<byte>, base: nat, f: seq<Frame>, p: seq<nat>, g: seq<Frame>,
                    q: seq<nat>, lo: nat, span: Span, hi: nat)
    requires base <= lo <= span.0 <= span.1 <= hi <= base + |bytes|
    requires Located(isn, bytes, base, f, p, span.0, span.1) && Located(isn, bytes, base, g, q, span.1, hi)
    ensures Located(isn, bytes, base, f + g, p + q, lo, hi)
  {
    LocatedWider(isn, bytes, base, f, p, span.0, span.1, lo);
    LocatedAppend(isn, bytes, base, f, p, g, q, lo, span.1, hi);
  }

  lemma CarriedRest(f: seq<Frame>, p: seq<nat>, g: seq<Frame>, q: seq<nat>, spans: seq<Span>)
    requires |p| == |f| && |q| == |g| && spans != []
    requires forall x: nat :: Carried(f, p, x) <==> spans[0].0 <= x < spans[0].1
    requires forall x: nat :: Carried(g, q, x) <==> InSpans(spans[1..], x)
    ensures forall x: nat :: Carried(f + g, p + q, x) <==> InSpans(spans, x)
  {
    forall x: nat
      ensures Carried(f + g, p + q, x) <==> InSpans(spans, x)
    {
      CarriedAppend(f, p, g, q, x);
      InFirst(spans, x);
    }
  }

  lemma InFirst(spans: seq<Span>, x: nat)
    requires spans != []
    ensures InSpans(spans, x) <==> spans[0].0 <= x < spans[0].1 || InSpans(spans[1..], x)
  {
    InAppend([spans[0]], spans[1..], x);
    assert [spans[0]] + spans[1..] == spans;
    assert [spans[0]][0] == spans[0];
  }

  lemma SendRangesFirst(isn: u32, tx: Tx, spans: seq<Span>, env: Env)
    requires tx.WellSized() && 0 < env.mss && spans != [] && tx.SendRange(Number(isn, spans[0]), env).ok
    ensures
      var out := tx.SendRanges(Numbers(isn, spans), env);
      var sent := tx.SendRange(Number(isn, spans[0]), env);
      var rest := sent.tx.SendRanges(Numbers(isn, spans[1..]), env);
      out.ok == rest.ok && out.frames == sent.frames + rest.frames
  {
    assert Numbers(isn, spans)[0] == Number(isn, spans[0]) && Numbers(isn, spans)[1..] == Numbers(isn, spans[1..]);
  }

  lemma LocatedWider(isn: u32, bytes: seq<byte>, base: nat, f: seq<Frame>, p: seq<nat>, lo: nat, hi: nat, lower: nat)
    requires Located(isn, bytes, base, f, p, lo, hi) && base <= lower <= lo
    ensures Located(isn, bytes, base, f, p, lower, hi)
  {
  }

  /**
   * For any list of ordered blocks within reach of the cache: no read fails, every frame is a
   * slice of the cache under its own number, no byte is sent twice, and the bytes sent are exactly
   * the cached ones outside the union of the blocks. Frames of the range that ends the cache carry
   * the FIN, if there is one; it follows alone only if nothing was left.
   */
  lemma SelectiveExact(isn: u32, tx: Tx, base: nat, blocks: seq<Span>, env: Env) returns (positions: seq<nat>)
    requires tx.WellSized() && |tx.cache.bytes| <= MAX_WINDOW && tx.cache.sequence == SeqAt(isn, base) && 0 < env.mss
    requires forall i :: 0 <= i < |blocks| ==> Near(base, |tx.cache.bytes|, blocks[i])
    ensures
      var left := MinusAll([(base, base + |tx.cache.bytes|)], blocks);
      var out := tx.RetransmitWithout(Numbers(isn, blocks), env);
      var data := tx.SendRanges(Numbers(isn, left), env).frames;
      && out.ok
      && out.frames == data + (if left == [] && tx.cacheFin.Some? then [tx.FinFrame(env)] else [])
      && Located(isn, tx.cache.bytes, base, data, positions, base, base + |tx.cache.bytes|)
      && (forall x: nat :: Carried(data, positions, x) <==>
            base <= x < base + |tx.cache.bytes| && Outside(blocks, x))
      && forall i :: 0 <= i < |data| ==>
           Flagged(isn, data[i], left, base + |tx.cache.bytes|, tx.cacheFin.Some?)
  {
    var n := |tx.cache.bytes|;
    var left := MinusAll([(base, base + n)], blocks);
    SubtractAllExact(isn, base, n, blocks);
    assert tx.cache.RecvNext() == SeqAt(isn, base + n) by {
      SeqAtStep(isn, base, n);
    }
    positions := SelectiveSends(isn, tx, base, Numbers(isn, blocks), left, env);
    RangesFlag(isn, tx, base, left, env);
  }

  lemma SelectiveSends(isn: u32, tx: Tx, base: nat, blocks: seq<Range>, left: seq<Span>,
                       env: Env) returns (positions: seq<nat>)
    requires tx.WellSized() && |tx.cache.bytes| <= MAX_WINDOW && tx.cache.sequence == SeqAt(isn, base) && 0 < env.mss
    requires Tidy(left, base, base + |tx.cache.bytes|)
    requires Numbers(isn, left) == SubtractAll([(tx.cache.sequence, tx.cache.RecvNext())], blocks)
    ensures
      var out := tx.RetransmitWithout(blocks, env);
      var data := tx.SendRanges(Numbers(isn, left), env).frames;
      && out.ok
      && out.frames == data + (if left == [] && tx.cacheFin.Some? then [tx.FinFrame(env)] else [])
      && Located(isn, tx.cache.bytes, base, data, positions, base, base + |tx.cache.bytes|)
      && forall x: nat :: Carried(data, positions, x) <==> InSpans(left, x)
  {
    positions := RangesCarry(isn, tx, base, base, left, env);
    NumbersAt(isn, left);
    RetransmitIs(tx, blocks, Numbers(isn, left), env);
  }

  lemma RetransmitIs(tx: Tx, blocks: seq<Range>, ranges: seq<Range>, env: Env)
    requires tx.WellSized() && 0 < env.mss && tx.SendRanges(ranges, env).ok
    requires ranges == SubtractAll([(tx.cache.sequence, tx.cache.RecvNext())], blocks)
    ensures
      var out, sent := tx.RetransmitWithout(blocks, env), tx.SendRanges(ranges, env);
      out.ok && out.frames == sent.frames + (if ranges == [] && tx.cacheFin.Some? then [tx.FinFrame(env)] else [])
  {
    assert tx.SendRanges([], env) == Out(tx, [], true);
  }
}
