/**
 * When duplicate acknowledgements lead to a fast retransmission (src/lib.rs:1510-1555,
 * src/lib.rs:1947-1972), over any list of segments without payload: by what the peer sent and when,
 * not by the counter.
 */
module FastRetransmission {
  import opened Basics
  import opened SequenceNumbers
  import opened Transmit
  import opened Connection
  import SenderSteps

  /** A segment without payload: its number, when it is handled, and whether its window is 0. */
  datatype Ack = Ack(number: u32, now: nat, zeroWindow: bool)

  /**
   * What the handler does to the counter: it counts and, if it retransmits, starts anew and notes
   * the time. The result says whether it retransmits.
   */
  function Take(rx: Rx, a: Ack): (Rx, bool) {
    var (next, fast) := rx.IncreaseDuplicate(a.number, a.now);
    if fast && !a.zeroWindow then (next.(duplicate := 0, lastRetrans := Some(a.now)), true) else (next, false)
  }

  /** This is the handler of `Connection`, unless the connection ends or a cache read fails. */
  lemma AckOnlyTakes(c: Conn, seg: Segment, writable: bool, env: Env)
    requires c.snd.tx.cache.Ok() && 0 < env.mss
    requires writable || |c.snd.tx.cache.bytes| + |c.snd.tx.queue| != 0
    ensures
      var (rx, fires) := Take(c.rx, Ack(seg.acknowledgement, env.now, seg.window == 0));
      var e := if c.rx.sackPerm && seg.blocks != [] then SenderSteps.SelectiveRetransmit(seg.blocks)
               else SenderSteps.FastRetransmit;
      var c' := AckOnly(c, seg, writable, env);
      && (!fires ==> c' == c.(rx := rx, phase := Replied(seg)))
      && (fires && SenderSteps.React(c.snd.tx, e, env).ok ==>
            c' == Send(c, e, env).(rx := rx, phase := Replied(seg)))
  {
  }

  /** The state after a list of such segments. */
  function After(rx: Rx, acks: seq<Ack>): Rx {
    if acks == [] then rx else Take(After(rx, Init(acks)), Last(acks)).0
  }

  /** The last of the list leads to a retransmission. */
  predicate Fires(rx: Rx, acks: seq<Ack>)
    requires acks != []
  {
    Take(After(rx, Init(acks)), Last(acks)).1
  }

  function Init(acks: seq<Ack>): seq<Ack>
    requires acks != []
  {
    acks[..|acks| - 1]
  }

  function Last(acks: seq<Ack>): Ack
    requires acks != []
  {
    acks[|acks| - 1]
  }

  // ---------------------------------------------------------------------------------------------
  // The history, without the counter
  // ---------------------------------------------------------------------------------------------

  /** The number acknowledged last. */
  function LastNumber(rx: Rx, acks: seq<Ack>): u32 {
    if acks == [] then rx.lastAcknowledgement else Last(acks).number
  }

  /** When the last retransmission was. */
  function LastFired(rx: Rx, acks: seq<Ack>): Option<nat> {
    if acks == [] then rx.lastRetrans
    else if Fires(rx, acks) then Some(Last(acks).now)
    else LastFired(rx, Init(acks))
  }

  /** How often the last number was repeated since it first came or last led to a retransmission. */
  function Repeats(rx: Rx, acks: seq<Ack>): nat {
    if acks == [] then rx.duplicate
    else if Last(acks).number != LastNumber(rx, Init(acks)) then 0
    else if Init(acks) != [] && Fires(rx, Init(acks)) then 1
    else 1 + Repeats(rx, Init(acks))
  }

  /** The state is the history. */
  lemma {:induction false} StateIsHistory(rx: Rx, acks: seq<Ack>)
    ensures
      var s := After(rx, acks);
      && s.lastAcknowledgement == LastNumber(rx, acks) && s.lastRetrans == LastFired(rx, acks)
      && s.duplicate == if acks != [] && Fires(rx, acks) then 0 else Repeats(rx, acks)
    decreases |acks|
  {
    if acks != [] {
      StateIsHistory(rx, Init(acks));
    }
  }

  /**
   * A list of acknowledgements ends in a fast retransmission if and only if the last one has a
   * window above 0, repeats the number before it, at least for the third time since that number
   * first came or last led to a retransmission, and the last retransmission is at least 200 ms ago.
   */
  lemma FastIff(rx: Rx, acks: seq<Ack>)
    requires acks != []
    ensures Fires(rx, acks) <==>
      && !Last(acks).zeroWindow
      && Last(acks).number == LastNumber(rx, Init(acks))
      && Repeats(rx, acks) >= DUPLICATES_THRESHOLD
      && var fired := LastFired(rx, Init(acks));
         fired.None? || Last(acks).now >= fired.value + RETRANS_COOL_DOWN
  {
    StateIsHistory(rx, Init(acks));
  }

  // ---------------------------------------------------------------------------------------------
  // Spacing
  // ---------------------------------------------------------------------------------------------

  /** Once one of the list fired, the last to do so is known by its time and bounds the repeats. */
  lemma {:induction false} LastToFire(rx: Rx, acks: seq<Ack>, i: nat) returns (k: nat)
    requires i < |acks| && Fires(rx, acks[..i + 1])
    ensures i <= k < |acks| && Fires(rx, acks[..k + 1]) && LastFired(rx, acks) == Some(acks[k].now)
    ensures k < |acks| - 1 ==> !Fires(rx, acks) && Repeats(rx, acks) <= |acks| - 1 - k
    decreases |acks|
  {
    var n := |acks| - 1;
    assert acks[..n + 1] == acks;
    if Fires(rx, acks) {
      k := n;
    } else {
      assert i < n && Init(acks)[..i + 1] == acks[..i + 1];
      k := LastToFire(rx, Init(acks), i);
      assert Init(acks)[..k + 1] == acks[..k + 1];
      assert Init(acks)[..n] == Init(acks);
    }
  }

  /** Two fast retransmissions are at least three acknowledgements and 200 ms apart. */
  lemma {:induction false} FastSpacing(rx: Rx, acks: seq<Ack>, i: nat)
    requires i < |acks| - 1 && Fires(rx, acks[..i + 1]) && Fires(rx, acks)
    ensures i + DUPLICATES_THRESHOLD <= |acks| - 1
    ensures acks[i].now + RETRANS_COOL_DOWN <= Last(acks).now
    decreases |acks|
  {
    var init := Init(acks);
    assert init[..i + 1] == acks[..i + 1];
    var k := LastToFire(rx, init, i);
    assert init[..k + 1] == acks[..k + 1];
    assert init[..|init|] == init;
    FastIff(rx, acks);
    if i < k {
      assert acks[..k + 1][..i + 1] == acks[..i + 1];
      FastSpacing(rx, acks[..k + 1], i);
    }
  }
}
