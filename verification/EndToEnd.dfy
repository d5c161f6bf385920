/**
 * The two halves against each other: whatever a sender of this program ever put on the wire, in
 * whatever order, with whatever loss and repetition it reaches a receive window of this program,
 * comes out as a prefix of what was forwarded.
 */
module EndToEnd {
  import opened SequenceNumbers
  import opened WindowSpec
  import opened Reassembly
  import Transmit
  import SenderSteps
  import SenderRun

  /** The segment is one of the data frames sent. */
  ghost predicate FromLog(log: seq<Transmit.Frame>, a: Arrival) {
    exists i :: 0 <= i < |log| && log[i].Data? && a == Arrival(log[i].sequence, log[i].payload)
  }

  /** A sent frame is a slice numbered from the position after the SYN. */
  lemma SentIsSlice(isn: u32, s: SenderSteps.Sender, a: Arrival) returns (pos: nat)
    requires SenderRun.Inv(isn, s) && FromLog(s.log, a)
    ensures SliceAt(s.stream, SeqAt(isn, 1), a, pos)
  {
    var i :| 0 <= i < |s.log| && s.log[i].Data? && a == Arrival(s.log[i].sequence, s.log[i].payload);
    assert SenderSteps.Slice(isn, s.stream, s.log[i]);
    pos :| SenderSteps.SliceFrom(isn, s.stream, s.log[i], pos);
    SeqAtRebase(isn, 1, pos);
  }

  /** In a stream shorter than the numbers can tell apart, every slice is in sight. */
  lemma {:induction false} SentInSight(isn: u32, s: SenderSteps.Sender, r: Receiver, arrivals: seq<Arrival>)
    requires SenderRun.Inv(isn, s) && |s.stream| + MAX_WINDOW < U32_MAX
    requires forall i :: 0 <= i < |arrivals| ==> FromLog(s.log, arrivals[i])
    requires Tracks(s.stream, SeqAt(isn, 1), r)
    ensures forall a :: a in arrivals ==> Segment(a.payload)
    ensures SlicesInSight(s.stream, SeqAt(isn, 1), r, arrivals)
    decreases |arrivals|
  {
    if arrivals != [] {
      TracksMeans(s.stream, SeqAt(isn, 1), r);
      var pos := SentIsSlice(isn, s, arrivals[0]);
      assert InSight(|r.out|, pos, |arrivals[0].payload|);
      StepTracks(s.stream, SeqAt(isn, 1), r, arrivals[0], pos);
      SentInSight(isn, s, Step(r, arrivals[0]), arrivals[1..]);
    }
  }

  /**
   * For every reachable sender and every list of its frames: the receiver hands out exactly a
   * prefix of the forwarded stream, ending at its next expected number.
   */
  lemma DeliversForwardedPrefix(isn: u32, s: SenderSteps.Sender, r: Receiver, arrivals: seq<Arrival>)
    requires SenderRun.Inv(isn, s) && |s.stream| + MAX_WINDOW < U32_MAX
    requires forall i :: 0 <= i < |arrivals| ==> FromLog(s.log, arrivals[i])
    requires Tracks(s.stream, SeqAt(isn, 1), r)
    ensures forall a :: a in arrivals ==> Segment(a.payload)
    ensures
      var r' := Run(r, arrivals);
      r'.out <= s.stream && r'.window.sequence == SeqAt(isn, 1 + |r'.out|)
  {
    SentInSight(isn, s, r, arrivals);
    Reassembles(s.stream, SeqAt(isn, 1), r, arrivals);
    SeqAtRebase(isn, 1, |Run(r, arrivals).out|);
  }

  /** The same for a whole run of the sending side and a fresh window. */
  lemma WireToStream(isn: u32, s0: SenderSteps.Sender, events: seq<(SenderSteps.Event, Transmit.Env)>,
                     capacity: nat, arrivals: seq<Arrival>)
    requires SenderRun.Inv(isn, s0) && SenderRun.AllowedRun(isn, s0, events) && capacity <= MAX_WINDOW
    requires
      var s := SenderRun.Run(isn, s0, events);
      && |s.stream| + MAX_WINDOW < U32_MAX
      && forall i :: 0 <= i < |arrivals| ==> FromLog(s.log, arrivals[i])
    ensures forall a :: a in arrivals ==> Segment(a.payload)
    ensures Run(Fresh(capacity, SeqAt(isn, 1)), arrivals).out <= SenderRun.Run(isn, s0, events).stream
  {
    SenderRun.RunKeeps(isn, s0, events);
    var s := SenderRun.Run(isn, s0, events);
    FreshTracks(s.stream, SeqAt(isn, 1), capacity);
    DeliversForwardedPrefix(isn, s, Fresh(capacity, SeqAt(isn, 1)), arrivals);
  }
}
