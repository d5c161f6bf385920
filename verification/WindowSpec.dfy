/**
 * What `Window`, the receive window of a connection (src/cache/mod.rs:424-679), does, on plain
 * values: the bytes held out of order are a partial map from the distance to the next expected
 * byte. `ReceiveWindow` proves that the ring buffer and the sorted map of ranges refine this.
 *
 * A Rust panic (arithmetic overflow, slice out of range) is the result `Fault`.
 */
module WindowSpec {
  import opened Basics
  import opened SequenceNumbers

  /** Where a segment goes: `Take(at, body)` writes `body` at distance `at` from the base. */
  datatype Place = Take(at: nat, body: seq<byte>) | Old | Broken

  /** `Nothing` is the source's `Ok(None)`, `Full` its error. */
  datatype Outcome = Delivered(payload: seq<byte>) | Nothing | Full | Fault

  /** The source accepts lengths that fit its 32-bit casts; callers never pass an empty payload. */
  predicate Segment(payload: seq<byte>) { 0 < |payload| < U32_MAX }

  /** src/cache/mod.rs:458-478, with the two checks the trimming branch does not make. */
  function Locate(base: u32, sequence: u32, payload: seq<byte>): Place
    requires Segment(payload)
  {
    var distance := Sub(sequence, base);
    if distance <= MAX_WINDOW then Take(distance, payload)
    else
      var recvNext := Add(sequence, |payload|);
      if recvNext < base && sequence + (U32_MAX - recvNext) > U32_MAX then
        Broken // the addition overflows
      else
        var past := if recvNext >= base then recvNext - base else sequence + (U32_MAX - recvNext);
        if past == 0 then Old
        else if sequence > base then Broken // `self.sequence - sequence` overflows
        else if base - sequence > |payload| then Broken // the slice is out of range
        else Take(0, payload[base - sequence..])
  }

  /** Sequence numbers cannot tell positions further apart than this. */
  predicate InSight(base: nat, pos: nat, length: nat) {
    base + MAX_WINDOW < pos + U32_MAX && pos + length < base + U32_MAX
  }

  /** A segment `ahead` of the base is placed there, or breaks the program if too far ahead. */
  lemma LocateAhead(base: u32, ahead: nat, payload: seq<byte>)
    requires Segment(payload) && ahead + |payload| < U32_MAX
    ensures Locate(base, Add(base, ahead), payload)
         == if ahead <= MAX_WINDOW then Take(ahead, payload) else Broken
  {
  }

  /** A segment that starts `behind` the base is trimmed, ignored, or breaks the program. */
  lemma LocateBehind(sequence: u32, behind: nat, payload: seq<byte>)
    requires Segment(payload) && 0 < behind < U32_MAX - MAX_WINDOW
    ensures Locate(Add(sequence, behind), sequence, payload) ==
      if behind == |payload| then Old
      else if behind < |payload| && sequence + |payload| <= U32_MAX then Take(0, payload[behind..])
      else Broken
  {
  }

  /**
   * Where a segment at true position `pos`, numbered `sequence`, ends up. Only three kinds are
   * placed as they should be; a segment that ends before the base, one more than a window ahead,
   * and one that spans the base while its numbers wrap make the program panic.
   */
  function PlaceOf(sequence: u32, base: nat, pos: nat, payload: seq<byte>): Place {
    if base <= pos then
      if pos <= base + MAX_WINDOW then Take(pos - base, payload) else Broken
    else if pos + |payload| == base then Old
    else if base < pos + |payload| && sequence + |payload| <= U32_MAX then Take(0, payload[base - pos..])
    else Broken
  }

  lemma LocateNumbers(b: u32, s: u32, base: nat, pos: nat, payload: seq<byte>)
    requires Segment(payload) && InSight(base, pos, |payload|)
    requires base <= pos ==> s == Add(b, pos - base)
    requires base > pos ==> b == Add(s, base - pos)
    ensures Locate(b, s, payload) == PlaceOf(s, base, pos, payload)
  {
    if base <= pos {
      LocateAhead(b, pos - base, payload);
    } else {
      LocateBehind(s, base - pos, payload);
    }
  }

  /** Every case of `Locate` by true stream position. */
  lemma LocateByPosition(start: u32, base: nat, pos: nat, payload: seq<byte>)
    requires Segment(payload) && InSight(base, pos, |payload|)
    ensures Locate(SeqAt(start, base), SeqAt(start, pos), payload)
         == PlaceOf(SeqAt(start, pos), base, pos, payload)
  {
    Apart(start, base, pos);
    LocateNumbers(SeqAt(start, base), SeqAt(start, pos), base, pos, payload);
  }

  /** The bytes a segment puts at each distance. */
  function Overlay(at: nat, body: seq<byte>): map<nat, byte> {
    map p | at <= p < at + |body| :: ByteAt(at, body, p)
  }

  function ByteAt(at: nat, body: seq<byte>, p: nat): byte
    requires at <= p < at + |body|
  {
    body[p - at]
  }

  /** First distance from `i` on, below `bound`, that is not held. */
  function RunEnd(held: map<nat, byte>, i: nat, bound: nat): (e: nat)
    requires i <= bound
    ensures i <= e <= bound
    ensures forall p :: i <= p < e ==> p in held
    ensures e < bound ==> e !in held
    decreases bound - i
  {
    if i < bound && i in held then RunEnd(held, i + 1, bound) else i
  }

  /** Where the run of held bytes that reaches up to `at` from before it ends; 0 if there is none. */
  function RunAcross(held: map<nat, byte>, at: nat, bound: nat): nat {
    if 0 < at <= bound && at - 1 in held then RunEnd(held, at, bound) else 0
  }

  /** The segment `[at, at + n)` ends strictly inside a run of held bytes that began before it. */
  predicate EndsInside(held: map<nat, byte>, at: nat, n: nat, bound: nat) {
    at + n < RunAcross(held, at, bound)
  }

  function Without(held: map<nat, byte>, lo: nat, hi: nat): map<nat, byte> {
    map p | p in held && !(lo <= p < hi) :: held[p]
  }

  /** Held bytes after storing a segment: a segment ending inside an earlier run cuts that run short. */
  function Stored(held: map<nat, byte>, at: nat, body: seq<byte>, bound: nat): map<nat, byte> {
    Without(held, at + |body|, RunAcross(held, at, bound)) + Overlay(at, body)
  }

  datatype WindowState = WindowState(capacity: nat, sequence: u32, size: nat, held: map<nat, byte>)
  {
    /** Held bytes lie strictly above the base and within `size`. */
    ghost predicate Ok() {
      && size <= capacity <= MAX_WINDOW
      && 0 !in held
      && forall p :: p in held ==> p < size
    }

    function Remaining(): nat
      requires size <= capacity
    {
      capacity - size
    }

    function Append(seqNo: u32, payload: seq<byte>): (WindowState, Outcome)
      requires Segment(payload) && Ok()
    {
      match Locate(sequence, seqNo, payload)
      case Broken => (this, Fault)
      case Old => (this, Nothing)
      case Take(at, body) =>
        if at + |body| > capacity then (this, Full) else Accept(at, body)
    }

    /** Number of bytes that can be handed out once `body` is stored: the run at the base. */
    function Popped(at: nat, body: seq<byte>): (n: nat)
      ensures n <= Max(size, at + |body|)
      ensures forall p :: 0 <= p < n ==> p in Stored(held, at, body, size)
    {
      RunEnd(Stored(held, at, body, size), 0, Max(size, at + |body|))
    }

    /** Stores the body; if the base is now held, pops the whole run that starts there. */
    function Accept(at: nat, body: seq<byte>): (WindowState, Outcome)
      requires at + |body| <= capacity && size <= capacity <= MAX_WINDOW
    {
      var bound := Max(size, at + |body|);
      var held' := Stored(held, at, body, size);
      var n := Popped(at, body);
      if n == 0 then (this.(size := bound, held := held'), Nothing)
      else
        (this.(sequence := Add(sequence, n), size := bound - n, held := ShiftDown(held', n, bound)),
         Delivered(FirstBytes(held', n)))
    }

    /** Runs of held bytes, in order, as pairs of distances. */
    function Runs(): seq<(nat, nat)> { RunsFrom(held, 0, size) }

    /** `filled()`: the runs as sequence numbers. */
    function Filled(): seq<(u32, u32)>
      requires size <= MAX_WINDOW
    {
      var runs := Runs();
      RunsWithin(held, 0, size);
      seq(|runs|, i requires 0 <= i < |runs| => EdgeOf(sequence + runs[i].0, runs[i].1 - runs[i].0))
    }
  }

  function FirstBytes(held: map<nat, byte>, n: nat): (s: seq<byte>)
    requires forall p :: 0 <= p < n ==> p in held
    ensures |s| == n
    ensures forall p :: 0 <= p < n ==> s[p] == held[p]
  {
    if n == 0 then [] else FirstBytes(held, n - 1) + [held[n - 1]]
  }

  function ShiftDown(held: map<nat, byte>, n: nat, bound: nat): map<nat, byte> {
    map p | 0 <= p < bound - n && p + n in held :: Beyond(held, n, p)
  }

  function Beyond(held: map<nat, byte>, n: nat, p: nat): byte
    requires p + n in held
  {
    held[p + n]
  }

  function RunsFrom(held: map<nat, byte>, from: nat, bound: nat): seq<(nat, nat)>
    decreases bound - from
  {
    if from >= bound then []
    else if from !in held then RunsFrom(held, from + 1, bound)
    else
      var end := RunEnd(held, from + 1, bound);
      [(from, end)] + RunsFrom(held, end, bound)
  }

  /** A range as `filled()` reports it; its key counts past 2^32 - 1 while the numbers wrap. */
  function EdgeOf(key: nat, length: nat): (u32, u32)
    requires key <= 2 * U32_MAX && length <= U32_MAX
  {
    var begin := if key >= U32_MAX then key - U32_MAX else key;
    (begin, Add(begin, length))
  }

  /** The runs are non-empty, in order, separated by a gap, and made of held bytes only. */
  ghost predicate SeparatedRuns(runs: seq<(nat, nat)>, from: nat, bound: nat) {
    && (forall i :: 0 <= i < |runs| ==> from <= runs[i].0 < runs[i].1 <= bound)
    && (forall i, j :: 0 <= i < j < |runs| ==> runs[i].1 < runs[j].0)
  }

  ghost predicate InRuns(runs: seq<(nat, nat)>, p: nat) {
    exists i :: 0 <= i < |runs| && runs[i].0 <= p < runs[i].1
  }

  lemma {:induction false} RunsWithin(held: map<nat, byte>, from: nat, bound: nat)
    ensures SeparatedRuns(RunsFrom(held, from, bound), from, bound)
    decreases bound - from
  {
    if from < bound {
      if from !in held {
        RunsWithin(held, from + 1, bound);
      } else {
        var end := RunEnd(held, from + 1, bound);
        if end < bound {
          RunsWithin(held, end + 1, bound);
        }
      }
    }
  }

  lemma {:induction false} RunsCover(held: map<nat, byte>, from: nat, bound: nat, p: nat)
    requires from <= p
    ensures InRuns(RunsFrom(held, from, bound), p) <==> p < bound && p in held
    decreases bound - from
  {
    if from < bound {
      var runs := RunsFrom(held, from, bound);
      RunsWithin(held, from, bound);
      if from !in held {
        RunsWithin(held, from + 1, bound);
        if p > from { RunsCover(held, from + 1, bound, p); }
      } else {
        var end := RunEnd(held, from + 1, bound);
        var rest := RunsFrom(held, end, bound);
        RunsWithin(held, end, bound);
        assert runs[1..] == rest;
        if p < end {
          assert runs[0].0 <= p < runs[0].1;
        } else {
          RunsCover(held, end, bound, p);
          if InRuns(runs, p) {
            var i :| 0 <= i < |runs| && runs[i].0 <= p < runs[i].1;
            assert rest[i - 1] == runs[i];
          }
          if InRuns(rest, p) {
            var i :| 0 <= i < |rest| && rest[i].0 <= p < rest[i].1;
            assert runs[i + 1] == rest[i];
          }
        }
      }
    }
  }

  /** Separated runs are determined by the positions they contain. */
  lemma {:induction false} RunsUnique(a: seq<(nat, nat)>, b: seq<(nat, nat)>, from: nat, bound: nat)
    requires SeparatedRuns(a, from, bound) && SeparatedRuns(b, from, bound)
    requires forall p :: InRuns(a, p) <==> InRuns(b, p)
    ensures a == b
    decreases |a|
  {
    if a != [] {
      FirstRun(a, b, from, bound);
      assert b != [];
      FirstRun(b, a, from, bound);
      forall p
        ensures InRuns(a[1..], p) <==> InRuns(b[1..], p)
      {
        TailRuns(a, from, bound, p);
        TailRuns(b, from, bound, p);
      }
      RunsUnique(a[1..], b[1..], from, bound);
    } else if b != [] {
      assert InRuns(b, b[0].0);
    }
  }

  lemma FirstRun(a: seq<(nat, nat)>, b: seq<(nat, nat)>, from: nat, bound: nat)
    requires SeparatedRuns(a, from, bound) && SeparatedRuns(b, from, bound) && a != []
    requires forall p :: InRuns(a, p) <==> InRuns(b, p)
    ensures b != [] && b[0].0 <= a[0].0 && (a[0].0 == b[0].0 ==> b[0].1 >= a[0].1)
  {
    assert InRuns(a, a[0].0);
    if b != [] && a[0].0 <= b[0].1 < a[0].1 {
      assert InRuns(a, b[0].1);
    }
  }

  lemma TailRuns(a: seq<(nat, nat)>, from: nat, bound: nat, p: nat)
    requires SeparatedRuns(a, from, bound) && a != []
    ensures InRuns(a[1..], p) <==> InRuns(a, p) && p >= a[0].1
  {
    if InRuns(a, p) && p >= a[0].1 {
      var i :| 0 <= i < |a| && a[i].0 <= p < a[i].1;
      assert a[1..][i - 1] == a[i];
    }
    if InRuns(a[1..], p) {
      var i :| 0 <= i < |a[1..]| && a[1..][i].0 <= p < a[1..][i].1;
      assert a[i + 1] == a[1..][i];
    }
  }

  /**
   * What a SACK block made from a window says: it names a run of held bytes strictly above the
   * base, blocks are in order with a gap between them, and together they name every held byte. The
   * end is always the right number; the beginning is, unless its key is exactly 2^32 - 1, which is
   * reported as 0.
   */
  lemma FilledMeans(w: WindowState)
    requires w.Ok()
    ensures
      var runs, filled := w.Runs(), w.Filled();
      && |filled| == |runs|
      && SeparatedRuns(runs, 1, w.size)
      && (forall p: nat :: InRuns(runs, p) <==> p in w.held)
      && (forall i :: 0 <= i < |runs| ==>
            && filled[i].1 == Add(w.sequence, runs[i].1)
            && (filled[i].0 == Add(w.sequence, runs[i].0) <==> w.sequence + runs[i].0 != U32_MAX))
  {
    var runs := w.Runs();
    RunsWithin(w.held, 0, w.size);
    forall p: nat
      ensures InRuns(runs, p) <==> p in w.held
    {
      RunsCover(w.held, 0, w.size, p);
    }
    forall i | 0 <= i < |runs|
      ensures runs[i].0 >= 1
    {
      assert InRuns(runs, runs[i].0);
    }
    forall i | 0 <= i < |runs|
      ensures w.Filled()[i].1 == Add(w.sequence, runs[i].1)
      ensures w.Filled()[i].0 == Add(w.sequence, runs[i].0) <==> w.sequence + runs[i].0 != U32_MAX
    {
      EdgeNumbers(w.sequence, runs[i].0, runs[i].1);
    }
  }

  lemma EdgeNumbers(base: u32, from: nat, to: nat)
    requires from < to <= MAX_WINDOW
    ensures EdgeOf(base + from, to - from).1 == Add(base, to)
    ensures EdgeOf(base + from, to - from).0 == Add(base, from) <==> base + from != U32_MAX
  {
  }
}
