/**
 * Whole runs of the receive window: any list of segments, in any order, overlapping or repeated.
 *
 * `Receiver` adds to a window the bytes it has handed out and, as a witness for the proofs, the
 * last byte accepted for each stream position.
 */
module Reassembly {
  import opened Basics
  import opened SequenceNumbers
  import opened WindowSpec

  datatype Arrival = Arrival(sequence: u32, payload: seq<byte>)

  datatype Receiver = Receiver(window: WindowState, out: seq<byte>, last: map<nat, byte>)

  function Fresh(capacity: nat, start: u32): Receiver {
    Receiver(WindowState(capacity, start, 0, map[]), [], map[])
  }

  /** The segment is stored, at a distance from the base. */
  predicate Accepted(w: WindowState, a: Arrival)
    requires Segment(a.payload)
  {
    var place := Locate(w.sequence, a.sequence, a.payload);
    place.Take? && place.at + |place.body| <= w.capacity
  }

  /** Stores `body` at distance `at`. */
  function Store(r: Receiver, at: nat, body: seq<byte>): Receiver
    requires r.window.Ok() && at + |body| <= r.window.capacity
  {
    var (window, outcome) := r.window.Accept(at, body);
    Receiver(window,
             if outcome.Delivered? then r.out + outcome.payload else r.out,
             r.last + Overlay(|r.out| + at, body))
  }

  /** One append: the window moves as it says, and what it delivers is added to the output. */
  function Step(r: Receiver, a: Arrival): (r': Receiver)
    requires r.window.Ok() && Segment(a.payload)
    ensures
      var (window, outcome) := r.window.Append(a.sequence, a.payload);
      r'.window == window && r'.out == if outcome.Delivered? then r.out + outcome.payload else r.out
  {
    if Accepted(r.window, a) then
      var place := Locate(r.window.sequence, a.sequence, a.payload);
      Store(r, place.at, place.body)
    else r
  }

  function Run(r: Receiver, arrivals: seq<Arrival>): (r': Receiver)
    requires r.window.Ok() && forall a :: a in arrivals ==> Segment(a.payload)
    decreases |arrivals|
  {
    if arrivals == [] then r
    else
      AppendKeepsOk(r.window, arrivals[0].sequence, arrivals[0].payload);
      Run(Step(r, arrivals[0]), arrivals[1..])
  }

  /** A window step keeps held bytes strictly above the base and within `size`. */
  lemma AppendKeepsOk(w: WindowState, seqNo: u32, payload: seq<byte>)
    requires w.Ok() && Segment(payload)
    ensures w.Append(seqNo, payload).0.Ok()
    ensures w.Append(seqNo, payload).0.capacity == w.capacity
  {
    var place := Locate(w.sequence, seqNo, payload);
    if place.Take? && place.at + |place.body| <= w.capacity {
      AcceptKeepsOk(w, place.at, place.body);
    }
  }

  /**
   * When a segment is rejected, by its position in the stream, and that the receiver is then as it
   * was: a segment that reaches past the capacity is refused; one that ends before the base, starts
   * more than a window ahead of it, or spans it while its own numbers wrap makes the program panic;
   * one that ends at the base is old.
   */
  lemma RejectedByPosition(start: u32, r: Receiver, a: Arrival, pos: nat)
    requires r.window.Ok() && Segment(a.payload) && InSight(|r.out|, pos, |a.payload|)
    requires r.window.sequence == SeqAt(start, |r.out|) && a.sequence == SeqAt(start, pos)
    ensures
      var base, end := |r.out|, pos + |a.payload|;
      var outcome := r.window.Append(a.sequence, a.payload).1;
      var broken := end < base || base + MAX_WINDOW < pos || (pos < base < end && a.sequence + |a.payload| > U32_MAX);
      && (outcome == Fault <==> broken)
      && (outcome == Full <==> !broken && base + r.window.capacity < end)
      && (outcome == Fault || outcome == Full || end == base ==> Step(r, a) == r)
  {
    LocateByPosition(start, |r.out|, pos, a.payload);
  }

  /** Stream position `x` has been handed out or is held. */
  ghost predicate Known(r: Receiver, x: nat) {
    x < |r.out| || x - |r.out| in r.window.held
  }

  ghost function ByteOf(r: Receiver, x: nat): byte
    requires Known(r, x)
  {
    if x < |r.out| then r.out[x] else r.window.held[x - |r.out|]
  }

  /** The accepted part of the segment ends strictly inside a held run that began before it. */
  predicate Cuts(w: WindowState, a: Arrival)
    requires Segment(a.payload)
  {
    var place := Locate(w.sequence, a.sequence, a.payload);
    Accepted(w, a) && EndsInside(w.held, place.at, |place.body|, w.size)
  }

  /** Position `x` belongs to the rest of a run that the stored body cuts short. */
  ghost predicate Forgotten(r: Receiver, at: nat, body: seq<byte>, x: nat) {
    |r.out| + at + |body| <= x < |r.out| + RunAcross(r.window.held, at, r.window.size)
  }

  predicate Written(r: Receiver, at: nat, body: seq<byte>, x: nat) {
    |r.out| + at <= x < |r.out| + at + |body|
  }

  /** Storing keeps held bytes strictly above the base and within `size`. */
  lemma AcceptKeepsOk(w: WindowState, at: nat, body: seq<byte>)
    requires w.Ok() && at + |body| <= w.capacity
    ensures w.Accept(at, body).0.Ok()
  {
    var bound := Max(w.size, at + |body|);
    var held' := Stored(w.held, at, body, w.size);
    StoredBelow(w, at, body);
    var n := w.Popped(at, body);
    assert n !in held';
    if n > 0 {
      assert 0 !in ShiftDown(held', n, bound);
    }
  }

  lemma StoredBelow(w: WindowState, at: nat, body: seq<byte>)
    requires w.Ok()
    ensures forall p :: p in Stored(w.held, at, body, w.size) ==> p < Max(w.size, at + |body|)
  {
  }

  /** What storing hands out: the bytes of the run at the base, by which the base moves. */
  lemma AcceptHandsOut(w: WindowState, at: nat, body: seq<byte>)
    requires w.Ok() && at + |body| <= w.capacity
    ensures
      var (w', outcome) := w.Accept(at, body);
      var n := w.Popped(at, body);
      && (outcome.Delivered? <==> n > 0)
      && (n > 0 ==> outcome.payload == FirstBytes(Stored(w.held, at, body, w.size), n))
      && n <= MAX_WINDOW && w'.sequence == Add(w.sequence, n)
  {
  }

  /** What storing keeps: the byte at distance `p`, now closer to the base. */
  lemma AcceptHolds(w: WindowState, at: nat, body: seq<byte>, p: nat)
    requires w.Ok() && at + |body| <= w.capacity && w.Popped(at, body) <= p
    ensures
      var w' := w.Accept(at, body).0;
      var held' := Stored(w.held, at, body, w.size);
      var n := w.Popped(at, body);
      && (p in held' <==> p - n in w'.held)
      && (p in held' ==> held'[p] == w'.held[p - n])
  {
    StoredBelow(w, at, body);
    var n := w.Popped(at, body);
    ShiftDownAt(Stored(w.held, at, body, w.size), n, Max(w.size, at + |body|), p);
  }

  lemma ShiftDownAt(held: map<nat, byte>, n: nat, bound: nat, p: nat)
    requires n <= p && (p in held ==> p < bound)
    ensures p in held <==> p - n in ShiftDown(held, n, bound)
    ensures p in held ==> held[p] == ShiftDown(held, n, bound)[p - n]
  {
    assert (p - n) + n == p;
  }

  /** The effect of storing on one stream position. */
  lemma StoreEffect(r: Receiver, at: nat, body: seq<byte>, x: nat)
    requires r.window.Ok() && at + |body| <= r.window.capacity
    ensures
      var r' := Store(r, at, body);
      && (Known(r', x) <==> Written(r, at, body, x) || (Known(r, x) && !Forgotten(r, at, body, x)))
      && (Written(r, at, body, x) ==> ByteOf(r', x) == body[x - |r.out| - at])
      && (Known(r', x) && !Written(r, at, body, x) ==> ByteOf(r', x) == ByteOf(r, x))
  {
    if x < |r.out| {
      StoreKeepsOutput(r, at, body, x);
    } else {
      var p, held' := x - |r.out|, Stored(r.window.held, at, body, r.window.size);
      StoreKnows(r, at, body, p);
      StoredAt(r.window.held, at, body, r.window.size, p);
      PastEffect(r, Store(r, at, body), at, body, p, held');
    }
  }

  lemma PastEffect(r: Receiver, r': Receiver, at: nat, body: seq<byte>, p: nat, held': map<nat, byte>)
    requires Known(r', |r.out| + p) <==> p in held'
    requires p in held' ==> ByteOf(r', |r.out| + p) == held'[p]
    requires
      var inside := at <= p < at + |body|;
      var cut := at + |body| <= p < RunAcross(r.window.held, at, r.window.size);
      && (p in held' <==> inside || (p in r.window.held && !cut))
      && (inside ==> held'[p] == body[p - at])
      && (p in held' && !inside ==> held'[p] == r.window.held[p])
    ensures
      var x := |r.out| + p;
      && (Known(r', x) <==> Written(r, at, body, x) || (Known(r, x) && !Forgotten(r, at, body, x)))
      && (Written(r, at, body, x) ==> ByteOf(r', x) == body[x - |r.out| - at])
      && (Known(r', x) && !Written(r, at, body, x) ==> ByteOf(r', x) == ByteOf(r, x))
  {
  }

  /** What was handed out stays as it is. */
  lemma StoreKeepsOutput(r: Receiver, at: nat, body: seq<byte>, x: nat)
    requires r.window.Ok() && at + |body| <= r.window.capacity && x < |r.out|
    ensures Known(Store(r, at, body), x) && ByteOf(Store(r, at, body), x) == r.out[x]
  {
    StoreHandsOut(r, at, body);
  }

  /** At and past the base, the receiver knows exactly the stored bytes. */
  lemma StoreKnows(r: Receiver, at: nat, body: seq<byte>, p: nat)
    requires r.window.Ok() && at + |body| <= r.window.capacity
    ensures
      var r' := Store(r, at, body);
      var held' := Stored(r.window.held, at, body, r.window.size);
      && (Known(r', |r.out| + p) <==> p in held')
      && (p in held' ==> ByteOf(r', |r.out| + p) == held'[p])
  {
    StoreHandsOut(r, at, body);
    if p >= r.window.Popped(at, body) {
      AcceptHolds(r.window, at, body, p);
    }
  }

  /** The effect of storing on the last byte accepted for one stream position. */
  lemma StoreLast(r: Receiver, at: nat, body: seq<byte>, x: nat)
    requires r.window.Ok() && at + |body| <= r.window.capacity
    ensures
      var last := Store(r, at, body).last;
      && (x in last <==> Written(r, at, body, x) || x in r.last)
      && (x in last ==> last[x] == if Written(r, at, body, x) then body[x - |r.out| - at] else r.last[x])
  {
  }

  /** What storing adds to the output: the run at the base, by which the base moves. */
  lemma StoreHandsOut(r: Receiver, at: nat, body: seq<byte>)
    requires r.window.Ok() && at + |body| <= r.window.capacity
    ensures
      var n := r.window.Popped(at, body);
      && n <= MAX_WINDOW
      && Store(r, at, body).out == r.out + FirstBytes(Stored(r.window.held, at, body, r.window.size), n)
      && Store(r, at, body).window == r.window.Accept(at, body).0
      && Store(r, at, body).window.sequence == Add(r.window.sequence, n)
  {
    AcceptHandsOut(r.window, at, body);
  }

  lemma StoredAt(held: map<nat, byte>, at: nat, body: seq<byte>, bound: nat, p: nat)
    ensures
      var held' := Stored(held, at, body, bound);
      && (p in held' <==>
            at <= p < at + |body| || (p in held && !(at + |body| <= p < RunAcross(held, at, bound))))
      && (at <= p < at + |body| ==> held'[p] == body[p - at])
      && (p in held' && !(at <= p < at + |body|) ==> held'[p] == held[p])
  {
  }

  // ---------------------------------------------------------------------------------------------
  // Any segments at all: every byte handed out or held is the last one accepted for its position
  // ---------------------------------------------------------------------------------------------

  ghost predicate Faithful(r: Receiver) {
    && r.window.Ok()
    && forall x {:trigger Known(r, x)} :: Known(r, x) ==> x in r.last && r.last[x] == ByteOf(r, x)
  }

  lemma StepFaithful(r: Receiver, a: Arrival)
    requires Faithful(r) && Segment(a.payload)
    ensures Faithful(Step(r, a))
  {
    if Accepted(r.window, a) {
      var place := Locate(r.window.sequence, a.sequence, a.payload);
      StoreFaithful(r, place.at, place.body);
    }
  }

  lemma StoreFaithful(r: Receiver, at: nat, body: seq<byte>)
    requires Faithful(r) && at + |body| <= r.window.capacity
    ensures Faithful(Store(r, at, body))
  {
    AcceptKeepsOk(r.window, at, body);
    forall x | Known(Store(r, at, body), x)
      ensures x in Store(r, at, body).last && Store(r, at, body).last[x] == ByteOf(Store(r, at, body), x)
    {
      StoreEffect(r, at, body, x);
      StoreLast(r, at, body, x);
    }
  }

  lemma {:induction false} RunFaithful(r: Receiver, arrivals: seq<Arrival>)
    requires Faithful(r) && forall a :: a in arrivals ==> Segment(a.payload)
    ensures Faithful(Run(r, arrivals))
    decreases |arrivals|
  {
    if arrivals != [] {
      StepFaithful(r, arrivals[0]);
      RunFaithful(Step(r, arrivals[0]), arrivals[1..]);
    }
  }

  // ---------------------------------------------------------------------------------------------
  // Nothing accepted is forgotten, unless a segment ends inside an earlier run
  // ---------------------------------------------------------------------------------------------

  /** Every accepted position is handed out or still held. */
  ghost predicate Complete(r: Receiver) {
    forall x :: x in r.last ==> Known(r, x)
  }

  /** One step forgets accepted bytes exactly when its segment ends inside an earlier run. */
  lemma StepCompleteIff(r: Receiver, a: Arrival)
    requires Faithful(r) && Complete(r) && Segment(a.payload)
    ensures Complete(Step(r, a)) <==> !Cuts(r.window, a)
  {
    if Accepted(r.window, a) {
      var place := Locate(r.window.sequence, a.sequence, a.payload);
      StoreCompleteIff(r, place.at, place.body);
    }
  }

  lemma StoreCompleteIff(r: Receiver, at: nat, body: seq<byte>)
    requires Faithful(r) && Complete(r) && at + |body| <= r.window.capacity
    ensures Complete(Store(r, at, body)) <==> !EndsInside(r.window.held, at, |body|, r.window.size)
  {
    if EndsInside(r.window.held, at, |body|, r.window.size) {
      var p := at + |body|;
      StoreEffect(r, at, body, |r.out| + p);
      StoreLast(r, at, body, |r.out| + p);
      assert Known(r, |r.out| + p);
    } else {
      forall x | x in Store(r, at, body).last
        ensures Known(Store(r, at, body), x)
      {
        StoreEffect(r, at, body, x);
      }
    }
  }

  /** No segment of the run cuts a run short. */
  ghost predicate NoCuts(r: Receiver, arrivals: seq<Arrival>)
    requires r.window.Ok() && forall a :: a in arrivals ==> Segment(a.payload)
    decreases |arrivals|
  {
    arrivals == [] ||
    (AppendKeepsOk(r.window, arrivals[0].sequence, arrivals[0].payload);
     !Cuts(r.window, arrivals[0]) && NoCuts(Step(r, arrivals[0]), arrivals[1..]))
  }

  lemma {:induction false} RunComplete(r: Receiver, arrivals: seq<Arrival>)
    requires Faithful(r) && Complete(r) && (forall a :: a in arrivals ==> Segment(a.payload))
    requires NoCuts(r, arrivals)
    ensures Complete(Run(r, arrivals))
    decreases |arrivals|
  {
    if arrivals != [] {
      StepFaithful(r, arrivals[0]);
      StepCompleteIff(r, arrivals[0]);
      RunComplete(Step(r, arrivals[0]), arrivals[1..]);
    }
  }

  // ---------------------------------------------------------------------------------------------
  // How far the window reaches
  // ---------------------------------------------------------------------------------------------

  /** The window reaches exactly to the furthest byte accepted, so that its size is the span from the base to it. */
  ghost predicate Reaches(r: Receiver) {
    && (forall x :: x in r.last ==> x < |r.out| + r.window.size)
    && (0 < |r.out| + r.window.size ==> |r.out| + r.window.size - 1 in r.last)
  }

  lemma StoreEnd(r: Receiver, at: nat, body: seq<byte>)
    requires r.window.Ok() && at + |body| <= r.window.capacity
    ensures |Store(r, at, body).out| + Store(r, at, body).window.size == |r.out| + Max(r.window.size, at + |body|)
  {
    StoreHandsOut(r, at, body);
  }

  lemma StoreReaches(r: Receiver, at: nat, body: seq<byte>)
    requires r.window.Ok() && Reaches(r) && body != [] && at + |body| <= r.window.capacity
    ensures Reaches(Store(r, at, body))
  {
    var r' := Store(r, at, body);
    var end := |r.out| + Max(r.window.size, at + |body|);
    StoreEnd(r, at, body);
    forall x | x in r'.last
      ensures x < end
    {
      StoreLast(r, at, body, x);
    }
    StoreLast(r, at, body, end - 1);
  }

  lemma {:induction false} RunReaches(r: Receiver, arrivals: seq<Arrival>)
    requires r.window.Ok() && Reaches(r) && forall a :: a in arrivals ==> Segment(a.payload)
    ensures Reaches(Run(r, arrivals))
    decreases |arrivals|
  {
    if arrivals != [] {
      var a := arrivals[0];
      AppendKeepsOk(r.window, a.sequence, a.payload);
      if Accepted(r.window, a) {
        var place := Locate(r.window.sequence, a.sequence, a.payload);
        StoreReaches(r, place.at, place.body);
      }
      RunReaches(Step(r, a), arrivals[1..]);
    }
  }

  // ---------------------------------------------------------------------------------------------
  // Segments of one stream
  // ---------------------------------------------------------------------------------------------

  /** The segment at stream position `pos`, numbered from `start`. */
  ghost predicate SliceAt(stream: seq<byte>, start: u32, a: Arrival, pos: nat) {
    && Segment(a.payload)
    && pos + |a.payload| <= |stream|
    && a.payload == stream[pos..pos + |a.payload|]
    && a.sequence == SeqAt(start, pos)
  }

  /** Each segment is a slice of the stream that its number identifies when it arrives. */
  ghost predicate SlicesInSight(stream: seq<byte>, start: u32, r: Receiver, arrivals: seq<Arrival>)
    requires r.window.Ok()
    decreases |arrivals|
  {
    arrivals == [] ||
    (&& (exists pos :: SliceAt(stream, start, arrivals[0], pos) && InSight(|r.out|, pos, |arrivals[0].payload|))
     && (AppendKeepsOk(r.window, arrivals[0].sequence, arrivals[0].payload);
         SlicesInSight(stream, start, Step(r, arrivals[0]), arrivals[1..])))
  }

  /** What the receiver knows is part of the stream, and its base is where the output ends. */
  ghost predicate Tracks(stream: seq<byte>, start: u32, r: Receiver) {
    && Faithful(r)
    && r.window.sequence == SeqAt(start, |r.out|)
    && forall x :: x in r.last ==> x < |stream| && r.last[x] == stream[x]
  }

  lemma StepTracks(stream: seq<byte>, start: u32, r: Receiver, a: Arrival, pos: nat)
    requires Tracks(stream, start, r) && SliceAt(stream, start, a, pos) && InSight(|r.out|, pos, |a.payload|)
    ensures Tracks(stream, start, Step(r, a))
  {
    StepByPosition(start, r, a, pos);
    match PlaceOf(a.sequence, |r.out|, pos, a.payload) {
      case Take(at, body) =>
        if at + |body| <= r.window.capacity {
          TakeTracks(stream, start, r, a, pos, at, body);
        }
      case _ =>
    }
  }

  lemma TakeTracks(stream: seq<byte>, start: u32, r: Receiver, a: Arrival, pos: nat, at: nat, body: seq<byte>)
    requires Tracks(stream, start, r) && SliceAt(stream, start, a, pos)
    requires PlaceOf(a.sequence, |r.out|, pos, a.payload) == Take(at, body)
    requires at + |body| <= r.window.capacity
    ensures Tracks(stream, start, Store(r, at, body))
  {
    PlaceIsSlice(stream, start, |r.out|, a, pos);
    StoreTracks(stream, start, r, at, body);
  }

  lemma StepByPosition(start: u32, r: Receiver, a: Arrival, pos: nat)
    requires r.window.Ok() && Segment(a.payload) && InSight(|r.out|, pos, |a.payload|)
    requires r.window.sequence == SeqAt(start, |r.out|) && a.sequence == SeqAt(start, pos)
    ensures
      var place := PlaceOf(a.sequence, |r.out|, pos, a.payload);
      Step(r, a) == if place.Take? && place.at + |place.body| <= r.window.capacity
                    then Store(r, place.at, place.body) else r
  {
    LocateByPosition(start, |r.out|, pos, a.payload);
  }

  /** The stored part of a slice is the slice at the position it is stored for. */
  lemma PlaceIsSlice(stream: seq<byte>, start: u32, base: nat, a: Arrival, pos: nat)
    requires SliceAt(stream, start, a, pos) && PlaceOf(a.sequence, base, pos, a.payload).Take?
    ensures
      var place := PlaceOf(a.sequence, base, pos, a.payload);
      var from := base + place.at;
      from + |place.body| <= |stream| && place.body == stream[from..from + |place.body|]
  {
  }

  lemma StoreTracks(stream: seq<byte>, start: u32, r: Receiver, at: nat, body: seq<byte>)
    requires Tracks(stream, start, r) && at + |body| <= r.window.capacity
    requires |r.out| + at + |body| <= |stream| && body == stream[|r.out| + at..|r.out| + at + |body|]
    ensures Tracks(stream, start, Store(r, at, body))
  {
    StoreFaithful(r, at, body);
    StoreMovesBase(start, r, at, body);
    forall x | x in Store(r, at, body).last
      ensures x < |stream| && Store(r, at, body).last[x] == stream[x]
    {
      StoreEffect(r, at, body, x);
      StoreLast(r, at, body, x);
    }
  }

  /** The base moves by exactly what is handed out. */
  lemma StoreMovesBase(start: u32, r: Receiver, at: nat, body: seq<byte>)
    requires r.window.Ok() && at + |body| <= r.window.capacity
    requires r.window.sequence == SeqAt(start, |r.out|)
    ensures Store(r, at, body).window.sequence == SeqAt(start, |Store(r, at, body).out|)
  {
    StoreHandsOut(r, at, body);
    var n := r.window.Popped(at, body);
    assert |Store(r, at, body).out| == |r.out| + n;
    SeqAtStep(start, |r.out|, n);
  }

  lemma FreshTracks(stream: seq<byte>, start: u32, capacity: nat)
    requires capacity <= MAX_WINDOW
    ensures Tracks(stream, start, Fresh(capacity, start)) && Complete(Fresh(capacity, start))
  {
  }

  lemma {:induction false} RunTracks(stream: seq<byte>, start: u32, r: Receiver, arrivals: seq<Arrival>)
    requires Tracks(stream, start, r) && (forall a :: a in arrivals ==> Segment(a.payload))
    requires SlicesInSight(stream, start, r, arrivals)
    ensures Tracks(stream, start, Run(r, arrivals))
    decreases |arrivals|
  {
    if arrivals != [] {
      var pos :| SliceAt(stream, start, arrivals[0], pos) && InSight(|r.out|, pos, |arrivals[0].payload|);
      StepTracks(stream, start, r, arrivals[0], pos);
      RunTracks(stream, start, Step(r, arrivals[0]), arrivals[1..]);
    }
  }

  lemma TracksMeans(stream: seq<byte>, start: u32, r: Receiver)
    requires Tracks(stream, start, r)
    ensures r.out <= stream
    ensures forall p :: p in r.window.held ==>
              |r.out| + p < |stream| && r.window.held[p] == stream[|r.out| + p]
  {
    assert |r.out| > 0 ==> Known(r, |r.out| - 1);
    forall i | 0 <= i < |r.out|
      ensures i < |stream| && r.out[i] == stream[i]
    {
      assert Known(r, i);
    }
    forall p | p in r.window.held
      ensures |r.out| + p < |stream| && r.window.held[p] == stream[|r.out| + p]
    {
      assert Known(r, |r.out| + p);
    }
  }

  /**
   * Reassembly. Whatever slices of one stream arrive, in whatever order, overlap and repetition,
   * the bytes handed out are exactly a prefix of the stream, it ends at the window's sequence
   * number, and every byte still held is the stream's byte for its position. A fresh window
   * qualifies as the start (`FreshTracks`).
   */
  lemma Reassembles(stream: seq<byte>, start: u32, r0: Receiver, arrivals: seq<Arrival>)
    requires Tracks(stream, start, r0)
    requires forall a :: a in arrivals ==> Segment(a.payload)
    requires SlicesInSight(stream, start, r0, arrivals)
    ensures
      var r := Run(r0, arrivals);
      && r.out <= stream
      && r.window.sequence == SeqAt(start, |r.out|)
      && forall p :: p in r.window.held ==>
           |r.out| + p < |stream| && r.window.held[p] == stream[|r.out| + p]
  {
    RunTracks(stream, start, r0, arrivals);
    TracksMeans(stream, start, Run(r0, arrivals));
  }

  /**
   * Nothing is lost. If moreover no segment cuts an earlier run short, then once every position of
   * the stream has been accepted the whole stream has been handed out.
   */
  lemma DeliversEverything(stream: seq<byte>, start: u32, r0: Receiver, arrivals: seq<Arrival>)
    requires Tracks(stream, start, r0) && Complete(r0)
    requires forall a :: a in arrivals ==> Segment(a.payload)
    requires SlicesInSight(stream, start, r0, arrivals) && NoCuts(r0, arrivals)
    ensures
      var r := Run(r0, arrivals);
      (forall x :: 0 <= x < |stream| ==> x in r.last) ==> r.out == stream
  {
    Reassembles(stream, start, r0, arrivals);
    RunFaithful(r0, arrivals);
    RunComplete(r0, arrivals);
    var r := Run(r0, arrivals);
    assert !Known(r, |r.out|);
  }

  /**
   * Without that condition the claim fails: on a fresh window bytes 2 to 4 arrive, then byte 3
   * again, which cuts the run; position 4 is forgotten although it was accepted.
   */
  lemma CutRunForgets(byte2: byte, byte3: byte, byte4: byte)
    ensures
      var r := Run(Fresh(16, 0), [Arrival(2, [byte2, byte3, byte4]), Arrival(3, [byte3])]);
      4 in r.last && !Known(r, 4)
  {
    var body := [byte2, byte3, byte4];
    var a, b := Arrival(2, body), Arrival(3, [byte3]);
    var r := Step(Fresh(16, 0), a);
    HoldsThree(body);
    CutsThree(r, byte3);
    assert [a, b][1..] == [b] && [b][1..] == [];
    assert Run(r, [b]) == Step(r, b);
  }

  lemma HoldsThree(body: seq<byte>)
    requires |body| == 3
    ensures
      var r := Step(Fresh(16, 0), Arrival(2, body));
      && r.window.Ok() && r.window.capacity == 16 && r.window.sequence == 0 && r.window.size == 5 && r.out == []
      && (forall x: nat :: Known(r, x) <==> 2 <= x < 5) && 4 in r.last
  {
    var r0 := Fresh(16, 0);
    StoreLast(r0, 2, body, 4);
    AcceptKeepsOk(r0.window, 2, body);
    StoreHandsOut(r0, 2, body);
    assert 0 !in Stored(r0.window.held, 2, body, 0);
    forall x: nat
      ensures Known(Store(r0, 2, body), x) <==> 2 <= x < 5
    {
      StoreEffect(r0, 2, body, x);
    }
  }

  lemma CutsThree(r: Receiver, last: byte)
    requires r.window.Ok() && r.window.capacity == 16 && r.window.sequence == 0 && r.window.size == 5 && r.out == []
    requires forall x: nat :: Known(r, x) <==> 2 <= x < 5
    requires 4 in r.last
    ensures 4 in Step(r, Arrival(3, [last])).last && !Known(Step(r, Arrival(3, [last])), 4)
  {
    assert Known(r, 2) && Known(r, 3) && Known(r, 4);
    assert RunAcross(r.window.held, 3, 5) == 5;
    StoreEffect(r, 3, [last], 4);
    StoreLast(r, 3, [last], 4);
  }
}
