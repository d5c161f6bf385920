/**
 * `Queue`, the send window of a connection (src/cache/mod.rs:15-337): consecutive unacknowledged
 * bytes in a growable ring, a list of clocks that time them, and a retransmission mark.
 *
 * `QueueState` is the plain value the class refines: its bytes are a sequence. The instant of a
 * call is an input (`now`), read once per call.
 */
module SendQueue {
  import opened Basics
  import opened SequenceNumbers
  import Ring

  datatype Timer = Timer(start: nat, timeout: nat) {
    function Elapsed(now: nat): nat { if now >= start then now - start else 0 }

    predicate Expired(now: nat) { Elapsed(now) > timeout }
  }

  /** The bytes from `start` to the start of the next clock are timed by `timer`. */
  datatype Clock = Clock(start: u32, timer: Timer)

  datatype GetError = NoSuchSequence | TooBig

  datatype GetResult = Got(payload: seq<byte>) | Failed(error: GetError)

  /** Offsets into the queue, and anything one window ahead of them, stay within one turn. */
  const MAX_CAPACITY: nat := U32_MAX - MAX_WINDOW - 1

  datatype QueueState = QueueState(
    capacity: nat, sequence: u32, bytes: seq<byte>, clocks: seq<Clock>, retrans: Option<u32>)
  {
    predicate WellSized() { |bytes| <= capacity <= MAX_CAPACITY }

    function RecvNext(): u32
      requires WellSized()
    {
      Add(sequence, |bytes|)
    }

    function Remaining(): nat
      requires WellSized()
    {
      capacity - |bytes|
    }

    /** Distance of a clock from the first byte. */
    function Offset(clock: Clock): nat { Sub(clock.start, sequence) }

    /** Clock starts are in order and lie in [sequence, recv_next]. */
    ghost predicate ClocksOk() {
      && (forall i :: 0 <= i < |clocks| ==>
            Offset(clocks[i]) <= |bytes| && clocks[i].start == Add(sequence, Offset(clocks[i])))
      && (forall i, j :: 0 <= i < j < |clocks| ==> Offset(clocks[i]) <= Offset(clocks[j]))
    }

    ghost predicate Ok() { WellSized() && ClocksOk() }

    function Append(payload: seq<byte>, rto: nat, now: nat): (q: QueueState)
      requires WellSized() && |payload| <= Remaining()
      ensures q.WellSized()
    {
      this.(bytes := bytes + payload, clocks := clocks + [Clock(RecvNext(), Timer(now, rto))])
    }

    function Get(from: u32, size: nat): GetResult {
      if size == 0 then Got([])
      else
        var distance := Sub(from, sequence);
        if distance > |bytes| then Failed(NoSuchSequence)
        else if |bytes| - distance < size then Failed(TooBig)
        else Got(bytes[distance..distance + size])
    }

    /** The queue after an acknowledgement up to `to`, and the round-trip sample it yields. */
    function InvalidateTo(to: u32, now: nat): (r: (QueueState, Option<nat>))
      requires WellSized()
      ensures r.0.WellSized()
    {
      var n := Sub(to, sequence);
      if n > MAX_WINDOW then (this, None)
      else
        var dropped := this.(sequence := to, bytes := if n <= |bytes| then bytes[n..] else []);
        var (left, rtt) := PopClocks(clocks, None, to, dropped.RecvNext(), retrans, now);
        (dropped.(clocks := left,
                  retrans := if retrans.Some? && Ahead(to, retrans.value) then None else retrans),
         rtt)
    }

    /** The bytes that timed out, and the queue with their timing restarted. */
    function TimedOut(rto: nat, now: nat): (r: (QueueState, seq<byte>))
      requires Ok()
      ensures r.1 <= bytes && r.0.bytes == bytes && r.0.sequence == sequence && r.0.capacity == capacity
    {
      var live := FirstLive(clocks, now);
      if live < |clocks| then
        var end := clocks[live].start;
        (this.(clocks := Restart(clocks, end, sequence, Timer(now, rto)), retrans := Some(end)),
         bytes[..Offset(clocks[live])])
      else
        (this.(clocks := [Clock(sequence, Timer(now, rto))], retrans := Some(RecvNext())), bytes)
    }

    /** The timer that governs the byte at offset `p`: that of the last clock at or before it. */
    ghost function TimerAt(p: nat): Option<Timer> { LastAtOrBefore(clocks, sequence, p) }
  }

  ghost function LastAtOrBefore(clocks: seq<Clock>, sequence: u32, p: nat): Option<Timer> {
    if clocks == [] then None
    else
      var last := clocks[|clocks| - 1];
      if Sub(last.start, sequence) <= p then Some(last.timer)
      else LastAtOrBefore(clocks[..|clocks| - 1], sequence, p)
  }

  /** The sample taken from one popped clock: the first live one, unless the mark is still ahead. */
  function Sample(rtt: Option<nat>, timer: Timer, to: u32, retrans: Option<u32>, now: nat): Option<nat> {
    if timer.Expired(now) || rtt.Some? then rtt
    else if retrans.Some? && Ahead(retrans.value, to) then None
    else Some(timer.Elapsed(now))
  }

  /** Pops every clock whose bytes are all acknowledged and moves up one that is partly so. */
  function PopClocks(clocks: seq<Clock>, rtt: Option<nat>, to: u32, recvNext: u32,
                     retrans: Option<u32>, now: nat): (seq<Clock>, Option<nat>)
  {
    if clocks == [] then ([], rtt)
    else
      var next := if |clocks| == 1 then recvNext else clocks[1].start;
      if Ahead(to, clocks[0].start) && Ahead(to, next) then
        PopClocks(clocks[1..], Sample(rtt, clocks[0].timer, to, retrans, now), to, recvNext, retrans, now)
      else if Ahead(to, clocks[0].start) then
        ([Clock(to, clocks[0].timer)] + clocks[1..], rtt)
      else
        (clocks, rtt)
  }

  /** Index of the first clock that has not timed out, or the number of clocks. */
  function FirstLive(clocks: seq<Clock>, now: nat): (k: nat)
    ensures k <= |clocks|
    ensures forall i :: 0 <= i < k ==> clocks[i].timer.Expired(now)
    ensures k < |clocks| ==> !clocks[k].timer.Expired(now)
  {
    if clocks == [] || !clocks[0].timer.Expired(now) then 0 else 1 + FirstLive(clocks[1..], now)
  }

  /** Pops the clocks up to `end` and, if any is left, puts one fresh clock in front. */
  function Restart(clocks: seq<Clock>, end: u32, sequence: u32, timer: Timer): seq<Clock> {
    if clocks == [] then []
    else if Ahead(end, clocks[0].start) then Restart(clocks[1..], end, sequence, timer)
    else [Clock(sequence, timer)] + clocks
  }

  // ---------------------------------------------------------------------------------------------
  // Clocks stay ordered and in range
  // ---------------------------------------------------------------------------------------------

  lemma AppendKeepsOk(q: QueueState, payload: seq<byte>, rto: nat, now: nat)
    requires q.Ok() && |payload| <= q.Remaining()
    ensures q.Append(payload, rto, now).Ok()
    ensures q.Append(payload, rto, now).bytes == q.bytes + payload
    ensures forall p :: 0 <= p < |q.bytes| ==>
              q.Append(payload, rto, now).TimerAt(p) == q.TimerAt(p)
    ensures forall p :: |q.bytes| <= p < |q.bytes| + |payload| ==>
              q.Append(payload, rto, now).TimerAt(p) == Some(Timer(now, rto))
  {
    var q' := q.Append(payload, rto, now);
    assert q'.clocks[..|q.clocks|] == q.clocks;
    assert forall i :: 0 <= i < |q.clocks| ==> q'.Offset(q'.clocks[i]) == q.Offset(q.clocks[i]);
  }

  /** In an ordered queue, "acknowledged up to" is a comparison of offsets. */
  lemma AheadIsOffset(q: QueueState, to: u32, o: nat)
    requires q.WellSized() && Ahead(to, q.sequence) && o <= |q.bytes|
    ensures
      var n := Sub(to, q.sequence);
      var start := Add(q.sequence, o);
      && (Ahead(to, start) <==> o <= n)
      && (o > n ==> Sub(start, to) == o - n && Add(to, o - n) == start)
  {
  }

  /** The queue after dropping what `to` acknowledges, clocks aside. */
  function Dropped(q: QueueState, to: u32): QueueState {
    var n := Sub(to, q.sequence);
    q.(sequence := to, bytes := if n <= |q.bytes| then q.bytes[n..] else [])
  }

  lemma AheadOfClocks(q: QueueState, to: u32)
    requires q.Ok() && Ahead(to, q.sequence)
    ensures
      var n := Sub(to, q.sequence);
      forall i :: 0 <= i < |q.clocks| ==>
        && (Ahead(to, q.clocks[i].start) <==> q.Offset(q.clocks[i]) <= n)
        && (q.Offset(q.clocks[i]) > n ==>
              Sub(q.clocks[i].start, to) == q.Offset(q.clocks[i]) - n
              && Add(to, q.Offset(q.clocks[i]) - n) == q.clocks[i].start)
  {
    forall i | 0 <= i < |q.clocks| {
      AheadIsOffset(q, to, q.Offset(q.clocks[i]));
    }
  }

  /** Popping keeps what is left of the clock list ordered and in range. */
  lemma {:induction false} PopClocksKeepsOk(q: QueueState, rtt: Option<nat>, to: u32, now: nat)
    requires q.Ok() && Ahead(to, q.sequence)
    ensures
      var left := PopClocks(q.clocks, rtt, to, Dropped(q, to).RecvNext(), q.retrans, now).0;
      Dropped(q, to).(clocks := left).Ok()
    decreases |q.clocks|
  {
    AheadOfClocks(q, to);
    var clocks := q.clocks;
    if clocks != [] && Ahead(to, clocks[0].start) {
      var next := if |clocks| == 1 then Dropped(q, to).RecvNext() else clocks[1].start;
      if Ahead(to, next) {
        TailOk(q);
        PopClocksKeepsOk(q.(clocks := clocks[1..]), Sample(rtt, clocks[0].timer, to, q.retrans, now), to, now);
      } else {
        MovedUpOk(q, to);
      }
    } else {
      PastOk(q, to);
    }
  }

  lemma TailOk(q: QueueState)
    requires q.Ok() && q.clocks != []
    ensures q.(clocks := q.clocks[1..]).Ok()
  {
    var tail := q.(clocks := q.clocks[1..]);
    assert forall i :: 0 <= i < |tail.clocks| ==> tail.clocks[i] == q.clocks[i + 1];
  }

  lemma PastOk(q: QueueState, to: u32)
    requires q.Ok() && Ahead(to, q.sequence) && (q.clocks != [] ==> !Ahead(to, q.clocks[0].start))
    ensures Dropped(q, to).Ok()
  {
    AheadOfClocks(q, to);
    var n := Sub(to, q.sequence);
    assert forall i :: 0 <= i < |q.clocks| ==> q.Offset(q.clocks[i]) > n;
  }

  lemma MovedUpOk(q: QueueState, to: u32)
    requires q.Ok() && Ahead(to, q.sequence) && q.clocks != [] && (|q.clocks| > 1 ==> !Ahead(to, q.clocks[1].start))
    ensures Dropped(q, to).(clocks := [Clock(to, q.clocks[0].timer)] + q.clocks[1..]).Ok()
  {
    TailOk(q);
    var q' := Dropped(q, to).(clocks := [Clock(to, q.clocks[0].timer)] + q.clocks[1..]);
    PastOk(q.(clocks := q.clocks[1..]), to);
    assert forall i :: 0 < i < |q'.clocks| ==> q'.clocks[i] == q.clocks[1..][i - 1];
  }

  /** Popping leaves every byte past the acknowledgement under the timer it had. */
  lemma {:induction false} PopClocksKeepsTimers(q: QueueState, rtt: Option<nat>, to: u32, now: nat, p: nat)
    requires q.Ok() && Ahead(to, q.sequence) && Sub(to, q.sequence) <= p < |q.bytes|
    ensures
      var left := PopClocks(q.clocks, rtt, to, Dropped(q, to).RecvNext(), q.retrans, now).0;
      LastAtOrBefore(left, to, p - Sub(to, q.sequence)) == q.TimerAt(p)
    decreases |q.clocks|
  {
    EndIsAhead(q, to);
    var clocks := q.clocks;
    if clocks == [] {
    } else if Ahead(to, clocks[0].start) {
      var next := if |clocks| == 1 then Dropped(q, to).RecvNext() else clocks[1].start;
      if Ahead(to, next) {
        TailOk(q);
        SecondIsReached(q, to);
        PopClocksKeepsTimers(q.(clocks := clocks[1..]), Sample(rtt, clocks[0].timer, to, q.retrans, now), to, now, p);
        LastSkipsFirst(clocks, q.sequence, p);
      } else {
        MovedUpTimers(q, to, p);
      }
    } else {
      PastTimers(q, to, p);
    }
  }

  lemma EndIsAhead(q: QueueState, to: u32)
    requires q.WellSized() && Ahead(to, q.sequence) && Sub(to, q.sequence) < |q.bytes|
    ensures !Ahead(to, Dropped(q, to).RecvNext())
  {
    AheadIsOffset(q, to, |q.bytes|);
  }

  lemma SecondIsReached(q: QueueState, to: u32)
    requires q.Ok() && Ahead(to, q.sequence) && |q.clocks| > 1 && Ahead(to, q.clocks[1].start)
    ensures Sub(q.clocks[1].start, q.sequence) <= Sub(to, q.sequence)
  {
    AheadOfClocks(q, to);
  }

  lemma PastTimers(q: QueueState, to: u32, p: nat)
    requires q.Ok() && Ahead(to, q.sequence) && Sub(to, q.sequence) <= p < |q.bytes|
    requires q.clocks != [] && !Ahead(to, q.clocks[0].start)
    ensures LastAtOrBefore(q.clocks, to, p - Sub(to, q.sequence)) == q.TimerAt(p)
  {
    AheadOfClocks(q, to);
    var n := Sub(to, q.sequence);
    assert forall i :: 0 <= i < |q.clocks| ==> q.Offset(q.clocks[i]) > n;
    LastShifts(q.clocks, q.clocks, q.sequence, to, n, p);
  }

  lemma MovedUpTimers(q: QueueState, to: u32, p: nat)
    requires q.Ok() && Ahead(to, q.sequence) && Sub(to, q.sequence) <= p < |q.bytes|
    requires q.clocks != [] && Ahead(to, q.clocks[0].start) && (|q.clocks| > 1 ==> !Ahead(to, q.clocks[1].start))
    ensures LastAtOrBefore([Clock(to, q.clocks[0].timer)] + q.clocks[1..], to, p - Sub(to, q.sequence)) == q.TimerAt(p)
  {
    AheadOfClocks(q, to);
    var n := Sub(to, q.sequence);
    assert forall i :: 1 <= i < |q.clocks| ==> q.Offset(q.clocks[i]) > n;
    LastShifts(q.clocks, [Clock(to, q.clocks[0].timer)] + q.clocks[1..], q.sequence, to, n, p);
  }

  /** A clock followed by one that also covers `p` does not govern `p`. */
  lemma {:induction false} LastSkipsFirst(clocks: seq<Clock>, sequence: u32, p: nat)
    requires |clocks| > 1 && Sub(clocks[1].start, sequence) <= p
    ensures LastAtOrBefore(clocks[1..], sequence, p) == LastAtOrBefore(clocks, sequence, p)
    decreases |clocks|
  {
    var n := |clocks|;
    if Sub(clocks[n - 1].start, sequence) > p {
      assert clocks[1..][..n - 2] == clocks[..n - 1][1..];
      LastSkipsFirst(clocks[..n - 1], sequence, p);
    }
  }

  /** Lists that agree up to a shift of their offsets by `n` govern the shifted bytes alike. */
  lemma {:induction false} LastShifts(a: seq<Clock>, b: seq<Clock>, from: u32, to: u32, n: nat, p: nat)
    requires |a| == |b| && n <= p
    requires forall i :: 0 <= i < |a| ==> a[i].timer == b[i].timer
    requires forall i :: 0 <= i < |a| ==>
               (Sub(a[i].start, from) <= p <==> Sub(b[i].start, to) <= p - n)
    ensures LastAtOrBefore(b, to, p - n) == LastAtOrBefore(a, from, p)
    decreases |a|
  {
    if a != [] {
      LastShifts(a[..|a| - 1], b[..|b| - 1], from, to, n, p);
    }
  }

  lemma InvalidateKeepsOk(q: QueueState, to: u32, now: nat)
    requires q.Ok() && Ahead(to, q.sequence)
    ensures q.InvalidateTo(to, now).0.Ok()
  {
    PopClocksKeepsOk(q, None, to, now);
  }

  /**
   * An acknowledgement that is not stale (up to one window ahead, also past the last byte) drops
   * exactly the bytes before it, keeps the clocks in order and leaves every remaining byte under
   * the timer it had.
   */
  lemma InvalidateDropsPrefix(q: QueueState, to: u32, now: nat)
    requires q.Ok() && Ahead(to, q.sequence)
    ensures
      var n := Sub(to, q.sequence);
      var q' := q.InvalidateTo(to, now).0;
      && q'.Ok()
      && q'.capacity == q.capacity && q'.sequence == to
      && q'.bytes == (if n <= |q.bytes| then q.bytes[n..] else [])
      && forall p :: n <= p < |q.bytes| ==> q'.TimerAt(p - n) == q.TimerAt(p)
  {
    InvalidateKeepsOk(q, to, now);
    forall p | Sub(to, q.sequence) <= p < |q.bytes|
      ensures q.InvalidateTo(to, now).0.TimerAt(p - Sub(to, q.sequence)) == q.TimerAt(p)
    {
      PopClocksKeepsTimers(q, None, to, now, p);
    }
  }

  /**
   * Acknowledgements of bytes in the queue are all honoured exactly when the queue holds at most
   * one window: a window scale above 8 lets it hold more, and those are ignored as stale.
   */
  lemma HonoursEveryAckIffOneWindow(q: QueueState, now: nat)
    requires q.WellSized()
    ensures (forall n :: 0 <= n <= |q.bytes| ==>
               q.InvalidateTo(Add(q.sequence, n), now).0.sequence == Add(q.sequence, n))
       <==> |q.bytes| <= MAX_WINDOW
  {
    if |q.bytes| > MAX_WINDOW {
      var to := Add(q.sequence, MAX_WINDOW + 1);
      assert Sub(to, q.sequence) == MAX_WINDOW + 1;
      assert q.InvalidateTo(to, now).0.sequence != to;
    }
  }

  /** Clocks kept by a restart are a suffix; one fresh clock for the first byte goes in front. */
  lemma {:induction false} RestartKeepsSuffix(clocks: seq<Clock>, end: u32, sequence: u32,
                                              timer: Timer) returns (k: nat)
    ensures k <= |clocks|
    ensures forall i :: 0 <= i < k ==> Ahead(end, clocks[i].start)
    ensures k < |clocks| ==> !Ahead(end, clocks[k].start)
    ensures Restart(clocks, end, sequence, timer)
         == if k == |clocks| then [] else [Clock(sequence, timer)] + clocks[k..]
  {
    if clocks == [] || !Ahead(end, clocks[0].start) {
      k := 0;
    } else {
      k := RestartKeepsSuffix(clocks[1..], end, sequence, timer);
      k := k + 1;
    }
  }

  /**
   * The timed-out bytes end at the first live clock (all bytes, if none is live) and the refreshed
   * clocks are in order. The loop pops the live clock as well, so it can leave no clock at all.
   */
  lemma TimedOutKeepsOk(q: QueueState, rto: nat, now: nat)
    requires q.Ok()
    ensures q.TimedOut(rto, now).0.Ok()
    ensures
      var live := FirstLive(q.clocks, now);
      q.TimedOut(rto, now).1 == if live < |q.clocks| then q.bytes[..q.Offset(q.clocks[live])] else q.bytes
  {
    var live := FirstLive(q.clocks, now);
    if live < |q.clocks| {
      var k := RestartKeepsSuffix(q.clocks, q.clocks[live].start, q.sequence, Timer(now, rto));
      RestartedOk(q, k, Timer(now, rto));
    }
  }

  lemma RestartedOk(q: QueueState, k: nat, timer: Timer)
    requires q.Ok() && k <= |q.clocks|
    ensures q.(clocks := if k == |q.clocks| then [] else [Clock(q.sequence, timer)] + q.clocks[k..]).Ok()
  {
    var q' := q.(clocks := [Clock(q.sequence, timer)] + q.clocks[k..]);
    assert forall i :: 0 < i < |q'.clocks| ==> q'.clocks[i] == q.clocks[k + i - 1];
  }

  /** A byte under a clock of the suffix is governed by the suffix alone. */
  lemma {:induction false} LastOfSuffix(clocks: seq<Clock>, sequence: u32, k: nat, i: nat, p: nat)
    requires k <= i < |clocks| && Sub(clocks[i].start, sequence) <= p
    ensures LastAtOrBefore(clocks[k..], sequence, p) == LastAtOrBefore(clocks, sequence, p)
    decreases |clocks|
  {
    var n := |clocks|;
    if Sub(clocks[n - 1].start, sequence) > p {
      assert clocks[k..][..n - 1 - k] == clocks[..n - 1][k..];
      LastOfSuffix(clocks[..n - 1], sequence, k, i, p);
    }
  }

  lemma {:induction false} FirstCovers(clocks: seq<Clock>, sequence: u32, p: nat)
    requires clocks != [] && clocks[0].start == sequence
    ensures LastAtOrBefore(clocks, sequence, p).Some?
    decreases |clocks|
  {
    if |clocks| > 1 {
      FirstCovers(clocks[..|clocks| - 1], sequence, p);
    }
  }

  /**
   * After the refresh every byte is timed again, unless the list was left empty; and a byte under
   * a clock that starts after the first live one keeps its timer.
   */
  lemma TimedOutKeepsTimers(q: QueueState, rto: nat, now: nat, p: nat)
    requires q.Ok() && p < |q.bytes|
    ensures
      var q' := q.TimedOut(rto, now).0;
      var live := FirstLive(q.clocks, now);
      && (q'.TimerAt(p).Some? <==> q'.clocks != [])
      && (live < |q.clocks| ==>
            forall i :: live < i < |q.clocks| && q.Offset(q.clocks[live]) < q.Offset(q.clocks[i]) <= p ==>
              q'.TimerAt(p) == q.TimerAt(p))
  {
    var q' := q.TimedOut(rto, now).0;
    var live := FirstLive(q.clocks, now);
    if live < |q.clocks| {
      var k := RestartKeepsSuffix(q.clocks, q.clocks[live].start, q.sequence, Timer(now, rto));
      forall i | live < i < |q.clocks| && q.Offset(q.clocks[live]) < q.Offset(q.clocks[i]) <= p
        ensures q'.TimerAt(p) == q.TimerAt(p)
      {
        LaterIsKept(q, live, i);
        LaterTimer(q.clocks, q'.clocks, q.sequence, k, i, p);
      }
    }
    if q'.clocks != [] {
      FirstCovers(q'.clocks, q.sequence, p);
    }
  }

  lemma LaterTimer(clocks: seq<Clock>, clocks': seq<Clock>, sequence: u32, k: nat, i: nat, p: nat)
    requires k <= i < |clocks| && Sub(clocks[i].start, sequence) <= p
    requires |clocks'| == 1 + |clocks| - k && clocks'[1..] == clocks[k..]
    ensures LastAtOrBefore(clocks', sequence, p) == LastAtOrBefore(clocks, sequence, p)
  {
    LastOfSuffix(clocks, sequence, k, i, p);
    assert clocks'[1 + i - k] == clocks'[1..][i - k] == clocks[k..][i - k] == clocks[i];
    LastOfSuffix(clocks', sequence, 1, 1 + i - k, p);
  }

  lemma LaterIsKept(q: QueueState, live: nat, i: nat)
    requires q.Ok() && live < i < |q.clocks|
    requires q.Offset(q.clocks[live]) < q.Offset(q.clocks[i])
    ensures !Ahead(q.clocks[live].start, q.clocks[i].start)
  {
  }

  /** Of two clocks in one queue, "at or after" means a later offset, by at most one window. */
  lemma AheadOfClock(q: QueueState, i: nat, j: nat)
    requires q.Ok() && i < |q.clocks| && j < |q.clocks|
    ensures Ahead(q.clocks[i].start, q.clocks[j].start) <==>
              q.Offset(q.clocks[j]) <= q.Offset(q.clocks[i]) <= q.Offset(q.clocks[j]) + MAX_WINDOW
  {
  }

  /**
   * The refresh leaves bytes outstanding without any clock exactly when some clock is live, no
   * clock starts after it, and none starts more than one window before it.
   */
  lemma TimedOutLosesClocksIff(q: QueueState, rto: nat, now: nat)
    requires q.Ok()
    ensures
      var live := FirstLive(q.clocks, now);
      q.TimedOut(rto, now).0.clocks == [] <==>
        && live < |q.clocks|
        && forall i :: 0 <= i < |q.clocks| ==>
             q.Offset(q.clocks[i]) <= q.Offset(q.clocks[live]) <= q.Offset(q.clocks[i]) + MAX_WINDOW
  {
    var live := FirstLive(q.clocks, now);
    if live < |q.clocks| {
      forall i | 0 <= i < |q.clocks| {
        AheadOfClock(q, live, i);
      }
      var k := RestartKeepsSuffix(q.clocks, q.clocks[live].start, q.sequence, Timer(now, rto));
    }
  }

  /** The bytes returned are timed anew from now on, unless no clock is left. */
  lemma TimedOutRestarts(q: QueueState, rto: nat, now: nat, p: nat)
    requires q.Ok() && q.capacity <= MAX_WINDOW && p < |q.TimedOut(rto, now).1|
    ensures
      var q' := q.TimedOut(rto, now).0;
      q'.clocks != [] ==> q'.TimerAt(p) == Some(Timer(now, rto))
  {
    var q' := q.TimedOut(rto, now).0;
    var live := FirstLive(q.clocks, now);
    if live < |q.clocks| && q'.clocks != [] {
      var k := RestartKeepsSuffix(q.clocks, q.clocks[live].start, q.sequence, Timer(now, rto));
      forall i | k <= i < |q.clocks|
        ensures q.Offset(q.clocks[i]) > p
      {
        AheadOfClock(q, live, k);
        assert q.Offset(q.clocks[k]) <= q.Offset(q.clocks[i]);
      }
      assert forall i :: 0 < i < |q'.clocks| ==> q'.clocks[i] == q.clocks[k + i - 1];
      OnlyFirstCovers(q'.clocks, q.sequence, p);
    }
  }

  lemma {:induction false} OnlyFirstCovers(clocks: seq<Clock>, sequence: u32, p: nat)
    requires clocks != [] && clocks[0].start == sequence
    requires forall i :: 0 < i < |clocks| ==> Sub(clocks[i].start, sequence) > p
    ensures LastAtOrBefore(clocks, sequence, p) == Some(clocks[0].timer)
    decreases |clocks|
  {
    if |clocks| > 1 {
      OnlyFirstCovers(clocks[..|clocks| - 1], sequence, p);
    }
  }

  // ---------------------------------------------------------------------------------------------
  // Round-trip samples
  // ---------------------------------------------------------------------------------------------

  /** Where the bytes of clock `i` end. */
  ghost function EndOf(q: QueueState, i: nat): nat
    requires i < |q.clocks|
  {
    if i + 1 < |q.clocks| then q.Offset(q.clocks[i + 1]) else |q.bytes|
  }

  /** The mark of a retransmission has not been passed by `to`. */
  predicate Marked(q: QueueState, to: u32) { q.retrans.Some? && Ahead(q.retrans.value, to) }

  lemma {:induction false} PopKeepsSample(clocks: seq<Clock>, rtt: Option<nat>, to: u32, recvNext: u32,
                                          retrans: Option<u32>, now: nat)
    requires rtt.Some? || (retrans.Some? && Ahead(retrans.value, to))
    ensures PopClocks(clocks, rtt, to, recvNext, retrans, now).1 == rtt
    decreases |clocks|
  {
    if clocks != [] {
      PopKeepsSample(clocks[1..], rtt, to, recvNext, retrans, now);
    }
  }

  /** The first clock is popped exactly if its bytes are all acknowledged. */
  lemma FirstIsPopped(q: QueueState, to: u32)
    requires q.Ok() && Ahead(to, q.sequence) && q.clocks != []
    ensures
      var next := if |q.clocks| == 1 then Dropped(q, to).RecvNext() else q.clocks[1].start;
      Ahead(to, q.clocks[0].start) && Ahead(to, next) <==> EndOf(q, 0) <= Sub(to, q.sequence)
  {
    AheadOfClocks(q, to);
    AheadIsOffset(q, to, |q.bytes|);
  }

  lemma {:induction false} PopSamples(q: QueueState, to: u32, now: nat, i: nat)
    requires q.Ok() && Ahead(to, q.sequence) && !Marked(q, to) && i <= |q.clocks|
    requires forall j :: 0 <= j < i ==> q.clocks[j].timer.Expired(now)
    requires i < |q.clocks| ==> !q.clocks[i].timer.Expired(now)
    ensures PopClocks(q.clocks, None, to, Dropped(q, to).RecvNext(), q.retrans, now).1 ==
      if i < |q.clocks| && EndOf(q, i) <= Sub(to, q.sequence) then Some(q.clocks[i].timer.Elapsed(now)) else None
    decreases i
  {
    if q.clocks != [] {
      FirstIsPopped(q, to);
      var tail := q.(clocks := q.clocks[1..]);
      TailOk(q);
      if i == 0 {
        var sample := Some(q.clocks[0].timer.Elapsed(now));
        PopKeepsSample(tail.clocks, sample, to, Dropped(q, to).RecvNext(), q.retrans, now);
      } else {
        PopSamples(tail, to, now, i - 1);
        if i < |q.clocks| && EndOf(q, 0) > Sub(to, q.sequence) {
          assert EndOf(q, 0) <= EndOf(q, i);
        }
      }
    }
  }

  /**
   * Which acknowledgement gives a round-trip sample: one that is not stale, has passed the mark of
   * the last retransmission, and covers all bytes of the first clock that is not over; the sample is
   * the time since those bytes were sent.
   */
  lemma SampleIff(q: QueueState, to: u32, now: nat, i: nat)
    requires q.Ok() && i <= |q.clocks|
    requires forall j :: 0 <= j < i ==> q.clocks[j].timer.Expired(now)
    requires i < |q.clocks| ==> !q.clocks[i].timer.Expired(now)
    ensures q.InvalidateTo(to, now).1 ==
      if Ahead(to, q.sequence) && !Marked(q, to) && i < |q.clocks| && EndOf(q, i) <= Sub(to, q.sequence)
      then Some(q.clocks[i].timer.Elapsed(now)) else None
  {
    if Ahead(to, q.sequence) {
      if Marked(q, to) {
        PopKeepsSample(q.clocks, None, to, Dropped(q, to).RecvNext(), q.retrans, now);
      } else {
        PopSamples(q, to, now, i);
      }
    }
  }

  /**
   * Karn's rule (section 3 of RFC 6298): after a timeout no acknowledgement of the bytes that were
   * sent again gives a sample, and the mark stays until one goes past them.
   */
  lemma NoSampleFromResent(q: QueueState, rto: nat, now: nat, n: nat, later: nat)
    requires q.Ok() && q.capacity <= MAX_WINDOW && n <= |q.TimedOut(rto, now).1|
    ensures
      var (q', payload) := q.TimedOut(rto, now);
      var (acked, sample) := q'.InvalidateTo(Add(q.sequence, n), later);
      && q'.retrans == Some(Add(q.sequence, |payload|))
      && sample == None && (acked.retrans.None? <==> n == |payload|)
  {
    var (q', payload) := q.TimedOut(rto, now);
    TimedOutKeepsOk(q, rto, now);
    var to := Add(q.sequence, n);
    PopKeepsSample(q'.clocks, None, to, Dropped(q', to).RecvNext(), q'.retrans, later);
  }

  /** Without a clock, the next call takes every byte as timed out, whatever the time. */
  lemma WithoutClocksAllTimesOut(q: QueueState, rto: nat, now: nat)
    requires q.Ok() && q.clocks == []
    ensures q.TimedOut(rto, now).1 == q.bytes
  {
  }

  /**
   * One call too early is enough: bytes appended to an empty queue, looked at before they time
   * out, lose their only clock, and the call after that returns all of them, whatever the time.
   */
  lemma EarlyCallForgets(q: QueueState, payload: seq<byte>, rto: nat, sent: nat, r: nat, early: nat, later: nat)
    requires q.WellSized() && q.bytes == [] && q.clocks == [] && |payload| <= q.Remaining()
    requires !Timer(sent, rto).Expired(early)
    ensures
      var q1 := q.Append(payload, rto, sent);
      && q1.Ok()
      && var (q2, first) := q1.TimedOut(r, early);
         q2.Ok() && first == [] && q2.clocks == [] && q2.TimedOut(r, later).1 == payload
  {
    var q1 := q.Append(payload, rto, sent);
    AppendKeepsOk(q, payload, rto, sent);
    assert q1.clocks == [Clock(q.RecvNext(), Timer(sent, rto))] && q1.bytes == payload;
    assert FirstLive(q1.clocks, early) == 0;
    TimedOutKeepsOk(q1, r, early);
    var k := RestartKeepsSuffix(q1.clocks, q1.clocks[0].start, q1.sequence, Timer(early, r));
  }

  /** A read by its offset: the slice if it lies in the queue, and one of two errors otherwise. */
  lemma GetByOffset(q: QueueState, p: nat, n: nat)
    requires q.WellSized() && p < U32_MAX
    ensures q.Get(Add(q.sequence, p), n) ==
      if n == 0 then Got([])
      else if p + n <= |q.bytes| then Got(q.bytes[p..p + n])
      else Failed(if p <= |q.bytes| then TooBig else NoSuchSequence)
  {
    SubOfAdd(q.sequence, p);
  }

  // ---------------------------------------------------------------------------------------------
  // The imperative queue
  // ---------------------------------------------------------------------------------------------

  class Queue {
    var buffer: seq<byte>
    const capacity: nat
    var sequence: u32
    var head: nat
    var size: nat
    var clocks: seq<Clock>
    var retrans: Option<u32>

    ghost predicate Valid()
      reads this
    {
      && Ring.Fits(buffer, head, size)
      && |buffer| <= capacity <= MAX_CAPACITY
      && View().ClocksOk()
    }

    /** The plain value this object stands for. */
    ghost function View(): (q: QueueState)
      requires Ring.Fits(buffer, head, size)
      reads this
      ensures |q.bytes| == size
    {
      QueueState(capacity, sequence, Ring.Contents(buffer, head, size), clocks, retrans)
    }

    constructor WithCapacity(capacity: nat, sequence: u32)
      requires capacity <= MAX_CAPACITY
      ensures Valid() && View() == QueueState(capacity, sequence, [], [], None)
    {
      this.buffer := [];
      this.capacity := capacity;
      this.sequence := sequence;
      this.head := 0;
      this.size := 0;
      this.clocks := [];
      this.retrans := None;
    }

    function Remaining(): nat
      requires Valid()
      reads this
    {
      capacity - size
    }

    function RecvNext(): (r: u32)
      requires Valid()
      reads this
      ensures r == View().RecvNext()
    {
      Add(sequence, size)
    }

    /** Appends at the tail, growing the ring first if needed; over capacity nothing changes. */
    method Append(payload: seq<byte>, rto: nat, now: nat) returns (ok: bool)
      requires Valid()
      modifies this
      ensures Valid()
      ensures ok <==> |payload| <= old(Remaining())
      ensures View() == if ok then old(View()).Append(payload, rto, now) else old(View())
    {
      if |payload| > Remaining() {
        return false;
      }
      ghost var before := View();
      ghost var old_bytes := View().bytes;
      if |payload| > |buffer| - size {
        var newLength := Ring.GrownLength(capacity, |buffer|, size + |payload|);
        Ring.GrowKeepsContents(buffer, head, size, newLength);
        buffer := Ring.Grow(buffer, head, size, newLength);
      }
      assert Ring.Contents(buffer, head, size) == old_bytes;
      AppendKeepsOk(before, payload, rto, now);

      clocks := clocks + [Clock(RecvNext(), Timer(now, rto))];
      if payload != [] {
        AppendStores(buffer, head, size, payload);
        buffer := Ring.Store(buffer, head, size, payload);
      }
      size := size + |payload|;
      assert View().bytes == old_bytes + payload;
      return true;
    }

    /** Drops the acknowledged prefix, pops its clocks and returns the round-trip sample. */
    method InvalidateTo(to: u32, now: nat) returns (rtt: Option<nat>)
      requires Valid()
      modifies this
      ensures Valid()
      ensures (View(), rtt) == old(View()).InvalidateTo(to, now)
    {
      ghost var before := View();
      var n := Sub(to, sequence);
      rtt := None;
      if n <= MAX_WINDOW {
        InvalidateKeepsOk(before, to, now);
        DropTo(to, n);
        assert View() == Dropped(before, to);
        rtt := PopAcknowledged(to, now);
        if retrans.Some? && Ahead(sequence, retrans.value) {
          retrans := None;
        }
      }
    }

    /** Moves the start of the queue to `to`, `n` bytes further. */
    method DropTo(to: u32, n: nat)
      requires Valid()
      modifies this`sequence, this`head, this`size
      ensures Ring.Fits(buffer, head, size) && sequence == to
      ensures Ring.Contents(buffer, head, size) == if n <= old(size) then old(View()).bytes[n..] else []
    {
      ghost var bytes := View().bytes;
      sequence := to;
      size := if n <= size then size - n else 0;
      if size == 0 {
        head := 0;
      } else {
        DropsPrefix(buffer, head, size + n, n);
        head := (head + n % |buffer|) % |buffer|;
        assert Ring.Contents(buffer, head, size) == bytes[n..];
      }
    }

    /** The clock loop of `InvalidateTo`. */
    method PopAcknowledged(to: u32, now: nat) returns (rtt: Option<nat>)
      requires size <= U32_MAX
      modifies this`clocks
      ensures (clocks, rtt) == PopClocks(old(clocks), None, to, Add(sequence, size), retrans, now)
    {
      rtt := None;
      while clocks != []
        invariant PopClocks(clocks, rtt, to, Add(sequence, size), retrans, now)
               == PopClocks(old(clocks), None, to, Add(sequence, size), retrans, now)
        decreases |clocks|
      {
        var next := if |clocks| == 1 then Add(sequence, size) else clocks[1].start;
        if Ahead(to, clocks[0].start) && Ahead(to, next) {
          var timer := clocks[0].timer;
          clocks := clocks[1..];
          if !timer.Expired(now) {
            if rtt.None? {
              rtt := Some(timer.Elapsed(now));
              if retrans.Some? && Ahead(retrans.value, to) {
                rtt := None;
              }
            }
          }
        } else if Ahead(to, clocks[0].start) {
          clocks := [Clock(to, clocks[0].timer)] + clocks[1..];
          break;
        } else {
          break;
        }
      }
    }

    /** Reads `length` bytes from sequence number `from`, across the wrap if need be. */
    method Get(from: u32, length: nat) returns (r: GetResult)
      requires Valid()
      ensures r == View().Get(from, length)
    {
      if length == 0 {
        return Got([]);
      }
      var distance := Sub(from, sequence);
      if distance > size {
        return Failed(NoSuchSequence);
      }
      if size - distance < length {
        return Failed(TooBig);
      }
      Ring.LoadIsSlice(buffer, head, size, distance, length);
      return Got(Ring.Load(buffer, head, distance, length));
    }

    /** All bytes; the inner read never fails. */
    method GetAll() returns (payload: seq<byte>)
      requires Valid()
      ensures payload == View().bytes
    {
      var r := Get(sequence, size);
      payload := r.payload;
    }

    /** The timed-out prefix, with the clocks restarted and the retransmission mark set. */
    method GetTimedOutAndUpdate(rto: nat, now: nat) returns (payload: seq<byte>)
      requires Valid()
      modifies this
      ensures Valid()
      ensures (View(), payload) == old(View()).TimedOut(rto, now)
    {
      ghost var before := View();
      TimedOutKeepsOk(before, rto, now);
      var live := 0;
      while live < |clocks| && clocks[live].timer.Expired(now)
        invariant live <= |clocks|
        invariant forall i :: 0 <= i < live ==> clocks[i].timer.Expired(now)
      {
        live := live + 1;
      }
      FirstLiveIs(clocks, now, live);

      if live < |clocks| {
        var end := clocks[live].start;
        var length := Sub(end, sequence);
        while clocks != []
          invariant Ring.Fits(buffer, head, size) && |buffer| <= capacity
          invariant View() == before.(clocks := clocks)
          invariant Restart(clocks, end, sequence, Timer(now, rto))
                 == Restart(before.clocks, end, sequence, Timer(now, rto))
          decreases |clocks|
        {
          if Ahead(end, clocks[0].start) {
            clocks := clocks[1..];
          } else {
            clocks := [Clock(sequence, Timer(now, rto))] + clocks;
            break;
          }
        }
        retrans := Some(end);
        var r := Get(sequence, length);
        payload := r.payload;
      } else {
        clocks := [Clock(sequence, Timer(now, rto))];
        retrans := Some(RecvNext());
        payload := GetAll();
      }
    }
  }

  lemma AppendStores(buffer: seq<byte>, head: nat, size: nat, payload: seq<byte>)
    requires Ring.Fits(buffer, head, size + |payload|) && buffer != []
    ensures Ring.Contents(Ring.Store(buffer, head, size, payload), head, size + |payload|)
         == Ring.Contents(buffer, head, size) + payload
  {
    forall i | 0 <= i < size + |payload|
      ensures Ring.Contents(Ring.Store(buffer, head, size, payload), head, size + |payload|)[i]
           == (Ring.Contents(buffer, head, size) + payload)[i]
    {
      Ring.StoreByte(buffer, head, size, payload, i);
    }
  }

  lemma DropsPrefix(buffer: seq<byte>, head: nat, size: nat, n: nat)
    requires Ring.Fits(buffer, head, size) && n < size
    ensures Ring.Fits(buffer, (head + n % |buffer|) % |buffer|, size - n)
    ensures Ring.Contents(buffer, (head + n % |buffer|) % |buffer|, size - n)
         == Ring.Contents(buffer, head, size)[n..]
  {
    Ring.WrapOnce(n, |buffer|);
    Ring.WrapOnce(head + n, |buffer|);
  }

  lemma {:induction false} FirstLiveIs(clocks: seq<Clock>, now: nat, k: nat)
    requires k <= |clocks|
    requires forall i :: 0 <= i < k ==> clocks[i].timer.Expired(now)
    requires k < |clocks| ==> !clocks[k].timer.Expired(now)
    ensures FirstLive(clocks, now) == k
  {
  }
}
