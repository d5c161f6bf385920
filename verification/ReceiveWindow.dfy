/**
 * `Window`, the receive window of a connection (src/cache/mod.rs:424-679): a growable ring buffer,
 * a base sequence number and a sorted map of the filled ranges, keyed by a counter that runs past
 * 2^32 - 1 while the sequence numbers wrap and is rebased when the base wraps.
 *
 * Every method is proved against `WindowSpec.WindowState`, where the held bytes are a plain map.
 */
module ReceiveWindow {
  import opened Basics
  import opened SequenceNumbers
  import opened WindowSpec
  import Ring
  import Reassembly

  /** Start of a filled range to its length. */
  type Edges = map<nat, nat>

  /** Ranges are non-empty and separated by a gap. */
  ghost predicate Separated(e: Edges) {
    && (forall k :: k in e ==> e[k] > 0)
    && (forall j, k :: j in e && k in e && j < k ==> j + e[j] < k)
  }

  ghost predicate Covered(e: Edges, x: nat) {
    exists k :: k in e && k <= x < k + e[k]
  }

  /** Ranges start strictly above the base and end within `size` of it. */
  ghost predicate Within(e: Edges, base: nat, size: nat) {
    forall k :: k in e ==> base < k && k + e[k] <= base + size
  }

  // ---------------------------------------------------------------------------------------------
  // Inserting and merging ranges
  // ---------------------------------------------------------------------------------------------

  /** `x` lies in a range that began before `start`, at or after the end of the inserted range. */
  ghost predicate CutOff(e: Edges, start: nat, end: nat, x: nat) {
    exists k :: k in e && k < start && end <= x < k + e[k]
  }

  /** What the merging loop and the search for the previous range leave behind. */
  ghost predicate MergePlan(e: Edges, start: nat, n: nat, rest: Edges, end: nat, from: nat) {
    && (forall k :: k in rest <==> k in e && !(start <= k <= start + n))
    && (forall k :: k in rest ==> rest[k] == e[k])
    && start + n <= end
    && (forall k :: k in e && start <= k <= start + n ==> k + e[k] <= end)
    && (end == start + n || exists k :: k in e && start <= k <= start + n && end == k + e[k])
    && from <= start
    && (from == start ==> forall k :: k in e && k < start ==> k + e[k] < start)
    && (from < start ==> from in e && from + e[from] >= start)
  }

  lemma MergeSeparates(e: Edges, start: nat, n: nat, rest: Edges, end: nat, from: nat)
    requires Separated(e) && n > 0 && MergePlan(e, start, n, rest, end, from)
    ensures Separated(rest[from := end - from])
  {
    var merged := rest[from := end - from];
    forall k | k in merged && from < k
      ensures end < k
    {
      assert k in e;
      assert k >= start;
      assert k > start + n;
      if end > start + n {
        var j :| j in e && start <= j <= start + n && end == j + e[j];
      }
    }
    forall j | j in merged && j < from
      ensures j + merged[j] < from
    {
      assert j in e;
    }
  }

  lemma MergeCovers(e: Edges, start: nat, n: nat, rest: Edges, end: nat, from: nat, x: nat)
    requires Separated(e) && n > 0 && MergePlan(e, start, n, rest, end, from)
    ensures Covered(rest[from := end - from], x)
       <==> start <= x < start + n || (Covered(e, x) && !CutOff(e, start, start + n, x))
  {
    var merged := rest[from := end - from];
    if Covered(merged, x) {
      var k :| k in merged && k <= x < k + merged[k];
      MergeCoversOnlyIf(e, start, n, rest, end, from, x, k);
    }
    if start <= x < start + n {
      assert from in merged && from <= x < from + merged[from];
    } else if Covered(e, x) && !CutOff(e, start, start + n, x) {
      var k :| k in e && k <= x < k + e[k];
      MergeCoversIf(e, start, n, rest, end, from, x, k);
    }
  }

  lemma MergeCoversIf(e: Edges, start: nat, n: nat, rest: Edges, end: nat, from: nat, x: nat, k: nat)
    requires Separated(e) && n > 0 && MergePlan(e, start, n, rest, end, from)
    requires k in e && k <= x < k + e[k] && !(start <= x < start + n) && !CutOff(e, start, start + n, x)
    ensures Covered(rest[from := end - from], x)
  {
    var merged := rest[from := end - from];
    if k in rest && k != from {
      assert k in merged && merged[k] == e[k];
    } else {
      assert from in merged && from <= x < from + merged[from];
    }
  }

  lemma MergeCoversOnlyIf(e: Edges, start: nat, n: nat, rest: Edges, end: nat, from: nat, x: nat, k: nat)
    requires Separated(e) && n > 0 && MergePlan(e, start, n, rest, end, from)
    requires k in rest[from := end - from] && k <= x < k + rest[from := end - from][k]
    ensures start <= x < start + n || (Covered(e, x) && !CutOff(e, start, start + n, x))
  {
    if k != from {
      assert k in e && k <= x < k + e[k];
    } else if x < start {
      assert from in e && from <= x < from + e[from];
    } else if x >= start + n {
      var j :| j in e && start <= j <= start + n && end == j + e[j];
      assert j <= x < j + e[j];
    }
  }

  /**
   * Inserts `[start, start + n)`: the ranges that start in it are absorbed, and it is joined to a
   * range that reaches it from below, which loses whatever lies beyond `start + n`.
   */
  method Merge(edges: Edges, start: nat, n: nat) returns (merged: Edges)
    requires Separated(edges) && n > 0
    ensures Separated(merged)
    ensures forall x: nat :: Covered(merged, x) <==>
              start <= x < start + n || (Covered(edges, x) && !CutOff(edges, start, start + n, x))
  {
    var rest, end := Absorb(edges, start, n);
    var prev := LastBelow(rest, start);
    var from, length := start, end - start;
    if prev.Some? && prev.value + rest[prev.value] >= start {
      length := length + (start - prev.value);
      from := prev.value;
    }
    assert MergePlan(edges, start, n, rest, end, from) by {
      forall k | k in edges && k < start && from == start
        ensures k + edges[k] < start
      {
        assert k in rest;
        assert k <= prev.value;
      }
    }
    MergeSeparates(edges, start, n, rest, end, from);
    forall x: nat
      ensures Covered(rest[from := end - from], x) <==>
              start <= x < start + n || (Covered(edges, x) && !CutOff(edges, start, start + n, x))
    {
      MergeCovers(edges, start, n, rest, end, from, x);
    }
    merged := rest[from := length];
    assert merged == rest[from := end - from];
  }

  /** Takes out the ranges that start in `[start, start + n]` and notes how far they reach. */
  method Absorb(edges: Edges, start: nat, n: nat) returns (rest: Edges, end: nat)
    ensures forall k :: k in rest <==> k in edges && !(start <= k <= start + n)
    ensures forall k :: k in rest ==> rest[k] == edges[k]
    ensures start + n <= end
    ensures forall k :: k in edges && start <= k <= start + n ==> k + edges[k] <= end
    ensures end == start + n || exists k :: k in edges && start <= k <= start + n && end == k + edges[k]
  {
    rest := edges;
    end := start + n;
    while true
      invariant forall k :: k in rest ==> k in edges && rest[k] == edges[k]
      invariant forall k :: k in edges && k !in rest ==> start <= k <= start + n && k + edges[k] <= end
      invariant start + n <= end
      invariant end == start + n || exists k :: k in edges && start <= k <= start + n && end == k + edges[k]
      decreases |rest.Keys|
    {
      var popKeys := set k | k in rest && start <= k <= start + n;
      assert forall k :: k in rest && start <= k <= start + n ==> k in popKeys;
      end := FurthestEnd(rest, popKeys, end);
      if popKeys == {} {
        break;
      }
      ghost var before := rest.Keys;
      rest := rest - popKeys;
      assert rest.Keys == before - popKeys;
      SmallerSet(rest.Keys, before);
    }
  }

  method FurthestEnd(edges: Edges, keys: set<nat>, atLeast: nat) returns (end: nat)
    requires keys <= edges.Keys
    ensures atLeast <= end && forall k :: k in keys ==> k + edges[k] <= end
    ensures end == atLeast || exists k :: k in keys && end == k + edges[k]
  {
    end := atLeast;
    var todo := keys;
    while todo != {}
      invariant todo <= keys && atLeast <= end
      invariant forall k :: k in keys && k !in todo ==> k + edges[k] <= end
      invariant end == atLeast || exists k :: k in keys && end == k + edges[k]
      decreases |todo|
    {
      var k :| k in todo;
      end := Max(end, k + edges[k]);
      todo := todo - {k};
    }
  }

  lemma SmallerSet(a: set<nat>, b: set<nat>)
    requires a < b
    ensures |a| < |b|
  {
    var x :| x in b && x !in a;
    assert |b - a| > 0;
    assert b == a + (b - a);
  }

  /** The last key below `start`. */
  method LastBelow(edges: Edges, start: nat) returns (prev: Option<nat>)
    ensures prev.Some? ==> prev.value in edges && prev.value < start
    ensures forall k :: k in edges && k < start ==> prev.Some? && k <= prev.value
  {
    prev := None;
    var todo := edges.Keys;
    while todo != {}
      invariant todo <= edges.Keys
      invariant prev.Some? ==> prev.value in edges && prev.value < start
      invariant forall k :: k in edges && k !in todo && k < start ==> prev.Some? && k <= prev.value
      decreases |todo|
    {
      var k := First(todo);
      if k < start && (prev.None? || prev.value < k) {
        prev := Some(k);
      }
      todo := todo - {k};
    }
  }

  /** The smallest key of a non-empty set. */
  method First(keys: set<nat>) returns (first: nat)
    requires keys != {}
    ensures first in keys && forall k :: k in keys ==> first <= k
  {
    first :| first in keys;
    var todo := keys - {first};
    while todo != {}
      invariant todo <= keys && first in keys
      invariant forall k :: k in keys && k !in todo ==> first <= k
      decreases |todo|
    {
      var k :| k in todo;
      if k < first {
        first := k;
      }
      todo := todo - {k};
    }
  }

  /** Key `k` of `moved` is key `k + shift` of `e`. */
  ghost predicate MovedAt(e: Edges, shift: nat, moved: Edges, k: nat) {
    && (k in moved <==> k + shift in e)
    && (k in moved ==> moved[k] == e[k + shift])
  }

  /** While `keys` are still to be moved: those above are as they were, those below have been moved. */
  ghost predicate Moving(e: Edges, keys: set<nat>, moved: Edges, k: nat)
    requires keys <= e.Keys
  {
    && (k in moved <==> k in keys || (k + U32_MAX in e && k + U32_MAX !in keys))
    && (k in moved && k in keys ==> moved[k] == e[k])
    && (k in moved && k !in keys ==> moved[k] == e[k + U32_MAX])
  }

  /** Moves every key down by 2^32 - 1, one key at a time. */
  method Rebase(edges: Edges) returns (moved: Edges)
    requires forall k :: k in edges ==> U32_MAX <= k < 2 * U32_MAX
    ensures forall k: nat :: MovedAt(edges, U32_MAX, moved, k)
  {
    moved := edges;
    var keys := edges.Keys;
    while keys != {}
      invariant keys <= edges.Keys
      invariant forall k: nat :: Moving(edges, keys, moved, k)
      decreases |keys|
    {
      var key :| key in keys;
      assert Moving(edges, keys, moved, key);
      var next := (moved - {key})[key - U32_MAX := moved[key]];
      forall k: nat
        ensures Moving(edges, keys - {key}, next, k)
      {
        assert Moving(edges, keys, moved, k);
      }
      moved := next;
      keys := keys - {key};
    }
    forall k: nat
      ensures MovedAt(edges, U32_MAX, moved, k)
    {
      assert Moving(edges, keys, moved, k);
    }
  }

  // ---------------------------------------------------------------------------------------------
  // Ranges and runs of held bytes
  // ---------------------------------------------------------------------------------------------

  /** Ranges lie in `[base, base + size]`; one may start at the base. */
  ghost predicate Bounded(e: Edges, base: nat, size: nat) {
    forall k :: k in e ==> base <= k && k + e[k] <= base + size
  }

  /** The held bytes are exactly those the ranges cover. */
  ghost predicate Records(e: Edges, base: nat, size: nat, held: map<nat, byte>) {
    forall p: nat :: p in held <==> p < size && Covered(e, base + p)
  }

  lemma CutReachesAcross(e: Edges, base: nat, size: nat, held: map<nat, byte>, at: nat, p: nat, k: nat)
    requires Bounded(e, base, size) && Records(e, base, size, held)
    requires k in e && base < k < base + at && at <= p && base + p < k + e[k]
    ensures p < RunAcross(held, at, size)
  {
    assert at - 1 in held by {
      assert Covered(e, base + (at - 1));
    }
    var end := RunEnd(held, at, size);
    assert Covered(e, base + end) || k + e[k] <= base + end;
  }

  /** Held bytes from inside a range up to `p` without a gap all lie in that range. */
  lemma RunStaysInRange(e: Edges, base: nat, size: nat, held: map<nat, byte>, at: nat, p: nat, k: nat)
    requires Separated(e) && Records(e, base, size, held)
    requires k in e && k < base + at <= k + e[k] && at <= p
    requires forall q :: at <= q <= p ==> q in held
    ensures base + p < k + e[k]
  {
    if k + e[k] <= base + p {
      var q := k + e[k] - base;
      assert q in held;
      var j :| j in e && j <= base + q < j + e[j];
    }
  }

  /** The part cut off an earlier range is the rest of the run of held bytes across `at`. */
  lemma CutIsAcross(e: Edges, base: nat, size: nat, held: map<nat, byte>, at: nat, end: nat, p: nat)
    requires Separated(e) && Within(e, base, size) && Records(e, base, size, held) && at < end
    ensures CutOff(e, base + at, base + end, base + p) <==> end <= p < RunAcross(held, at, size)
  {
    if CutOff(e, base + at, base + end, base + p) {
      var k :| k in e && k < base + at && base + end <= base + p < k + e[k];
      CutReachesAcross(e, base, size, held, at, p, k);
    }
    if end <= p < RunAcross(held, at, size) {
      assert at - 1 in held;
      var k :| k in e && k <= base + (at - 1) < k + e[k];
      RunStaysInRange(e, base, size, held, at, p, k);
    }
  }

  /** The range at the base is the run of held bytes there. */
  lemma FirstRangeIsRun(e: Edges, base: nat, size: nat, held: map<nat, byte>)
    requires Separated(e) && Bounded(e, base, size) && Records(e, base, size, held)
    ensures RunEnd(held, 0, size) == if base in e then e[base] else 0
  {
    var end := RunEnd(held, 0, size);
    if base in e {
      assert Covered(e, base + end) || e[base] <= end;
      if e[base] < end {
        RunStaysInRange(e, base, size, held, 1, e[base], base);
      }
    } else {
      assert !Covered(e, base + 0);
    }
  }

  /** `rest` is `e` without the range at `base`, with every key moved down by `shift`. */
  ghost predicate Shifted(e: Edges, base: nat, shift: nat, rest: Edges) {
    && (forall k: nat :: ShiftedAt(e, base, shift, rest, k))
    && (forall k: nat :: Movable(e, base, shift, k))
  }

  ghost predicate ShiftedAt(e: Edges, base: nat, shift: nat, rest: Edges, k: nat) {
    && (k in rest <==> k + shift in e && k + shift != base)
    && (k in rest ==> rest[k] == e[k + shift])
  }

  ghost predicate Movable(e: Edges, base: nat, shift: nat, k: nat) {
    k in e && k != base ==> shift <= k
  }

  lemma ShiftedCovers(e: Edges, base: nat, n: nat, shift: nat, rest: Edges, x: nat)
    requires Separated(e) && base in e && n == e[base] && Shifted(e, base, shift, rest)
    requires base + n <= x + shift
    ensures Covered(rest, x) <==> Covered(e, x + shift)
  {
    if Covered(rest, x) {
      var k :| k in rest && k <= x < k + rest[k];
      assert ShiftedAt(e, base, shift, rest, k);
      assert k + shift in e && k + shift <= x + shift < (k + shift) + e[k + shift];
    }
    if Covered(e, x + shift) {
      var j :| j in e && j <= x + shift < j + e[j];
      assert Movable(e, base, shift, j);
      var k: nat := j - shift;
      assert ShiftedAt(e, base, shift, rest, k);
      assert k in rest && k <= x < k + rest[k];
    }
  }

  lemma ShiftedSeparated(e: Edges, base: nat, shift: nat, rest: Edges)
    requires Separated(e) && Shifted(e, base, shift, rest)
    ensures Separated(rest)
  {
    forall j, k | j in rest && k in rest && j < k
      ensures j + rest[j] < k
    {
      assert ShiftedAt(e, base, shift, rest, j) && ShiftedAt(e, base, shift, rest, k);
    }
    forall k | k in rest
      ensures rest[k] > 0
    {
      assert ShiftedAt(e, base, shift, rest, k);
    }
  }

  lemma ShiftedWithin(e: Edges, base: nat, size: nat, n: nat, shift: nat, rest: Edges, base': nat)
    requires Separated(e) && Bounded(e, base, size) && base in e && n == e[base]
    requires Shifted(e, base, shift, rest) && base' + shift == base + n
    ensures 0 < n <= size && Within(rest, base', size - n)
  {
    forall k | k in rest
      ensures base' < k && k + rest[k] <= base' + (size - n)
    {
      assert ShiftedAt(e, base, shift, rest, k);
    }
  }

  // ---------------------------------------------------------------------------------------------
  // The fields of a window as one value, and the map of held bytes they stand for
  // ---------------------------------------------------------------------------------------------

  ghost function HeldIn(buffer: seq<byte>, head: nat, size: nat, e: Edges, base: nat): (held: map<nat, byte>)
    requires Ring.Fits(buffer, head, size)
    ensures Records(e, base, size, held)
  {
    map p | 0 <= p < size && Covered(e, base + p) :: ByteIn(buffer, head, p)
  }

  ghost function ByteIn(buffer: seq<byte>, head: nat, p: nat): byte
    requires Ring.Fits(buffer, head, p + 1)
  {
    buffer[Ring.Slot(|buffer|, head, p)]
  }

  /** Growing the ring keeps every held byte. */
  lemma GrowRefines(buffer: seq<byte>, head: nat, size: nat, e: Edges, base: nat, newLength: nat)
    requires Ring.Fits(buffer, head, size) && |buffer| <= newLength
    ensures
      var grown := Ring.Grow(buffer, head, size, newLength);
      Ring.Fits(grown, head, size) && HeldIn(grown, head, size, e, base) == HeldIn(buffer, head, size, e, base)
  {
    var grown := Ring.Grow(buffer, head, size, newLength);
    forall p | 0 <= p < size
      ensures ByteIn(grown, head, p) == ByteIn(buffer, head, p)
    {
      Ring.GrowKeepsByte(buffer, head, size, newLength, p);
    }
  }

  /** `merged` is what `Merge` makes of `e` for a body of `n` bytes at distance `at`. */
  ghost predicate MergedFor(e: Edges, base: nat, at: nat, n: nat, merged: Edges) {
    && Separated(merged)
    && forall x: nat :: Covered(merged, x) <==>
         base + at <= x < base + at + n || (Covered(e, x) && !CutOff(e, base + at, base + at + n, x))
  }

  lemma MergedBounds(e: Edges, base: nat, size: nat, at: nat, n: nat, merged: Edges)
    requires Separated(e) && Within(e, base, size) && n > 0 && MergedFor(e, base, at, n, merged)
    ensures Bounded(merged, base, Max(size, at + n))
    ensures base in merged <==> at == 0
  {
    forall k | k in merged
      ensures base <= k && k + merged[k] <= base + Max(size, at + n)
      ensures k == base ==> at == 0
    {
      assert Covered(merged, k);
      assert Covered(merged, k + merged[k] - 1);
    }
    if at == 0 {
      assert Covered(merged, base);
      var k :| k in merged && k <= base < k + merged[k];
    }
  }

  lemma MergedRecords(e: Edges, base: nat, size: nat, held: map<nat, byte>, at: nat, body: seq<byte>, merged: Edges)
    requires Separated(e) && Within(e, base, size) && Records(e, base, size, held)
    requires body != [] && MergedFor(e, base, at, |body|, merged)
    ensures Records(merged, base, Max(size, at + |body|), Stored(held, at, body, size))
  {
    forall p: nat
      ensures p in Stored(held, at, body, size) <==> p < Max(size, at + |body|) && Covered(merged, base + p)
    {
      CutIsAcross(e, base, size, held, at, at + |body|, p);
      Reassembly.StoredAt(held, at, body, size, p);
      if Covered(e, base + p) {
        var k :| k in e && k <= base + p < k + e[k];
      }
    }
  }

  /** Storing implements `Stored`, given ranges that record the result. */
  lemma StoreRefines(buffer: seq<byte>, head: nat, size: nat, e: Edges, base: nat, at: nat, body: seq<byte>,
                     merged: Edges)
    requires Ring.Fits(buffer, head, size) && body != [] && at + |body| <= |buffer|
    requires Records(merged, base, Max(size, at + |body|), Stored(HeldIn(buffer, head, size, e, base), at, body, size))
    ensures Ring.Fits(Ring.Store(buffer, head, at, body), head, Max(size, at + |body|))
    ensures HeldIn(Ring.Store(buffer, head, at, body), head, Max(size, at + |body|), merged, base)
         == Stored(HeldIn(buffer, head, size, e, base), at, body, size)
  {
    var buffer' := Ring.Store(buffer, head, at, body);
    var size' := Max(size, at + |body|);
    var held := HeldIn(buffer, head, size, e, base);
    forall p | p in HeldIn(buffer', head, size', merged, base)
      ensures HeldIn(buffer', head, size', merged, base)[p] == Stored(held, at, body, size)[p]
    {
      StoredByte(buffer, head, size, e, base, at, body, p);
    }
    SameHeld(merged, base, size', HeldIn(buffer', head, size', merged, base), Stored(held, at, body, size));
  }

  lemma StoredByte(buffer: seq<byte>, head: nat, size: nat, e: Edges, base: nat, at: nat, body: seq<byte>, p: nat)
    requires Ring.Fits(buffer, head, size) && body != [] && at + |body| <= |buffer| && p < |buffer|
    requires p in Stored(HeldIn(buffer, head, size, e, base), at, body, size)
    ensures ByteIn(Ring.Store(buffer, head, at, body), head, p)
         == Stored(HeldIn(buffer, head, size, e, base), at, body, size)[p]
  {
    Ring.StoreByte(buffer, head, at, body, p);
    Reassembly.StoredAt(HeldIn(buffer, head, size, e, base), at, body, size, p);
  }

  lemma SameHeld(e: Edges, base: nat, size: nat, a: map<nat, byte>, b: map<nat, byte>)
    requires Records(e, base, size, a) && Records(e, base, size, b)
    requires forall p :: p in a ==> p in b && a[p] == b[p]
    ensures a == b
  {
  }

  /** Moves the head past `n` bytes. */
  method AdvanceHead(length: nat, head: nat, n: nat) returns (moved: nat)
    requires head < length && n <= length
    ensures moved == Ring.Tail(length, head, n)
  {
    Ring.WrapOnce(n, length);
    Ring.WrapOnce(head + n % length, length);
    moved := (head + n % length) % length;
  }

  /** A byte keeps its slot when the head moves past `n` bytes. */
  lemma PopSlot(buffer: seq<byte>, head: nat, n: nat, p: nat)
    requires Ring.Fits(buffer, head, n + p + 1)
    ensures
      var head' := Ring.Tail(|buffer|, head, n);
      Ring.Fits(buffer, head', p + 1) && ByteIn(buffer, head', p) == ByteIn(buffer, head, n + p)
  {
  }

  /** Moving the head implements shifting down, given ranges that record the shifted bytes. */
  lemma PopRefines(buffer: seq<byte>, head: nat, size: nat, e: Edges, base: nat, n: nat, rest: Edges, base': nat)
    requires Ring.Fits(buffer, head, size) && 0 < n <= size
    requires Records(rest, base', size - n, ShiftDown(HeldIn(buffer, head, size, e, base), n, size))
    ensures Ring.Fits(buffer, Ring.Tail(|buffer|, head, n), size - n)
    ensures HeldIn(buffer, Ring.Tail(|buffer|, head, n), size - n, rest, base')
         == ShiftDown(HeldIn(buffer, head, size, e, base), n, size)
  {
    var held := HeldIn(buffer, head, size, e, base);
    var held' := HeldIn(buffer, Ring.Tail(|buffer|, head, n), size - n, rest, base');
    forall p | p in held'
      ensures p in ShiftDown(held, n, size) && held'[p] == ShiftDown(held, n, size)[p]
    {
      PopSlot(buffer, head, n, p);
      InShiftDown(held, n, size, p);
    }
    SameHeld(rest, base', size - n, held', ShiftDown(held, n, size));
  }

  lemma PopRunRefines(buffer: seq<byte>, head: nat, size: nat, e: Edges, base: nat, n: nat, rest: Edges, base': nat)
    requires Ring.Fits(buffer, head, size) && 0 < n <= size
    requires Records(rest, base', size - n, ShiftDown(HeldIn(buffer, head, size, e, base), n, size))
    requires forall p :: 0 <= p < n ==> p in HeldIn(buffer, head, size, e, base)
    ensures Ring.Fits(buffer, Ring.Tail(|buffer|, head, n), size - n)
    ensures HeldIn(buffer, Ring.Tail(|buffer|, head, n), size - n, rest, base')
         == ShiftDown(HeldIn(buffer, head, size, e, base), n, size)
    ensures Ring.Load(buffer, head, 0, n) == FirstBytes(HeldIn(buffer, head, size, e, base), n)
  {
    PopRefines(buffer, head, size, e, base, n, rest, base');
    LoadRefines(buffer, head, size, e, base, n);
  }

  lemma ShiftedRecords(e: Edges, base: nat, size: nat, held: map<nat, byte>, n: nat, shift: nat, rest: Edges,
                       base': nat)
    requires Separated(e) && Records(e, base, size, held)
    requires base in e && n == e[base] <= size && Shifted(e, base, shift, rest) && base' + shift == base + n
    ensures Records(rest, base', size - n, ShiftDown(held, n, size))
  {
    forall p: nat
      ensures p in ShiftDown(held, n, size) <==> p < size - n && Covered(rest, base' + p)
    {
      RecordsAt(e, base, size, held, p + n);
      ShiftedByte(e, base, size, held, n, shift, rest, base', p, p + n);
    }
  }

  lemma RecordsAt(e: Edges, base: nat, size: nat, held: map<nat, byte>, q: nat)
    requires Records(e, base, size, held)
    ensures q in held <==> q < size && Covered(e, base + q)
  {
  }

  lemma ShiftedByte(e: Edges, base: nat, size: nat, held: map<nat, byte>, n: nat, shift: nat, rest: Edges,
                    base': nat, p: nat, q: nat)
    requires Separated(e) && base in e && n == e[base] <= size && Shifted(e, base, shift, rest)
             && base' + shift == base + n
    requires q == p + n && (q in held <==> q < size && Covered(e, base + q))
    ensures p in ShiftDown(held, n, size) <==> p < size - n && Covered(rest, base' + p)
  {
    assert base' + p + shift == base + q;
    ShiftedCovers(e, base, n, shift, rest, base' + p);
    InShiftDown(held, n, size, p);
  }

  lemma InShiftDown(held: map<nat, byte>, n: nat, bound: nat, p: nat)
    ensures p in ShiftDown(held, n, bound) <==> p < bound - n && p + n in held
    ensures p in ShiftDown(held, n, bound) ==> ShiftDown(held, n, bound)[p] == held[p + n]
  {
  }

  /** The bytes read from the head are the first held bytes. */
  lemma LoadRefines(buffer: seq<byte>, head: nat, size: nat, e: Edges, base: nat, n: nat)
    requires Ring.Fits(buffer, head, size) && n <= size && buffer != []
    requires forall p :: 0 <= p < n ==> p in HeldIn(buffer, head, size, e, base)
    ensures Ring.Load(buffer, head, 0, n) == FirstBytes(HeldIn(buffer, head, size, e, base), n)
  {
    Ring.LoadIsSlice(buffer, head, size, 0, n);
    var loaded, held := Ring.Load(buffer, head, 0, n), HeldIn(buffer, head, size, e, base);
    forall p | 0 <= p < n
      ensures loaded[p] == FirstBytes(held, n)[p]
    {
      assert loaded[p] == Ring.Contents(buffer, head, size)[p];
      assert held[p] == ByteIn(buffer, head, p);
    }
  }

  // ---------------------------------------------------------------------------------------------
  // Numbers used by an append
  // ---------------------------------------------------------------------------------------------

  /** The key of a range that starts at sequence number `from`. */
  function KeyOf(base: u32, from: u32): nat {
    if from < base then from + U32_MAX else from
  }

  /** The size after storing `n` bytes at `from`: a distance test on sequence numbers. */
  function SizeAfter(base: u32, size: nat, from: u32, n: nat): nat
    requires size <= U32_MAX && n <= U32_MAX
  {
    var more := Sub(Add(from, n), Add(base, size));
    if more <= MAX_WINDOW then size + more else size
  }

  /** Keys count from the base, across the wrap. */
  lemma KeyIsDistance(base: u32, from: u32)
    ensures KeyOf(base, from) == base + Sub(from, base)
  {
  }

  /** With at most one window of capacity, the distance test finds the new size. */
  lemma SizeAfterIsMax(base: u32, size: nat, from: u32, n: nat)
    requires size <= MAX_WINDOW && 0 < n && Sub(from, base) + n <= MAX_WINDOW
    ensures SizeAfter(base, size, from, n) == Max(size, Sub(from, base) + n)
  {
  }

  /**
   * The bound is exact: the recorded size covers every segment a window of the given capacity
   * accepts if and only if the capacity is at most MAX_U32_WINDOW_SIZE, that is, for window scales
   * up to 8. A larger window accepts a segment one full window ahead and does not record it.
   */
  lemma SizeCoversIffOneWindow(capacity: nat, base: u32)
    requires capacity <= U32_MAX - MAX_WINDOW
    ensures (forall size: nat, at: nat, n: nat | size <= capacity && at <= MAX_WINDOW && 0 < n && at + n <= capacity ::
               at + n <= SizeAfter(base, size, Add(base, at), n))
       <==> capacity <= MAX_WINDOW
  {
    if capacity > MAX_WINDOW {
      assert SizeAfter(base, 0, Add(base, MAX_WINDOW), 1) == 0;
    } else {
      forall size: nat, at: nat, n: nat | size <= capacity && at <= MAX_WINDOW && 0 < n && at + n <= capacity
        ensures at + n <= SizeAfter(base, size, Add(base, at), n)
      {
        SubOfAdd(base, at);
        SizeAfterIsMax(base, size, Add(base, at), n);
      }
    }
  }

  /** Enters a segment into the ranges; `held` and `body` say which bytes they then record. */
  method Enter(edges: Edges, base: u32, size: nat, from: u32, ghost held: map<nat, byte>, ghost body: seq<byte>, n: nat)
    returns (merged: Edges)
    requires Separated(edges) && Within(edges, base, size) && Records(edges, base, size, held)
    requires n == |body| > 0
    ensures
      var at := Sub(from, base);
      var size' := Max(size, at + n);
      Separated(merged) && Bounded(merged, base, size') && Records(merged, base, size', Stored(held, at, body, size))
    ensures merged != map[]
  {
    KeyIsDistance(base, from);
    merged := Merge(edges, KeyOf(base, from), n);
    assert Covered(merged, KeyOf(base, from));
    MergedBounds(edges, base, size, Sub(from, base), n, merged);
    MergedRecords(edges, base, size, held, Sub(from, base), body, merged);
  }

  /** Takes out the range at the base and rebases the others if the base wraps past it. */
  method TakeFirst(edges: Edges, base: u32, n: nat) returns (rest: Edges, ghost shift: nat)
    requires Separated(edges) && base in edges && n == edges[base] <= MAX_WINDOW
    requires Bounded(edges, base, MAX_WINDOW)
    ensures Shifted(edges, base, shift, rest) && Add(base, n) + shift == base + n
  {
    OthersAfter(edges, base, n);
    var others := edges - {base};
    if U32_MAX - base < n {
      rest := Rebase(others);
      shift := U32_MAX;
      RebasedIsShifted(edges, base, rest);
    } else {
      rest, shift := others, 0;
    }
  }

  lemma RebasedIsShifted(edges: Edges, base: nat, moved: Edges)
    requires forall k: nat :: MovedAt(edges - {base}, U32_MAX, moved, k)
    requires forall k :: k in edges && k != base ==> U32_MAX <= k
    ensures Shifted(edges, base, U32_MAX, moved)
  {
    forall k: nat
      ensures ShiftedAt(edges, base, U32_MAX, moved, k)
    {
      assert MovedAt(edges - {base}, U32_MAX, moved, k);
    }
  }

  lemma OthersAfter(edges: Edges, base: u32, n: nat)
    requires Separated(edges) && base in edges && n == edges[base] <= MAX_WINDOW
    requires Bounded(edges, base, MAX_WINDOW)
    ensures forall k :: k in edges && k != base ==> base + n < k < 2 * U32_MAX
  {
  }

  lemma ShiftedAll(e: Edges, base: nat, size: nat, held: map<nat, byte>, n: nat, shift: nat, rest: Edges, base': nat)
    requires Separated(e) && Bounded(e, base, size) && Records(e, base, size, held)
    requires base in e && n == e[base] && Shifted(e, base, shift, rest) && base' + shift == base + n
    ensures 0 < n <= size && Separated(rest) && Within(rest, base', size - n)
    ensures Records(rest, base', size - n, ShiftDown(held, n, size))
  {
    ShiftedWithin(e, base, size, n, shift, rest, base');
    ShiftedSeparated(e, base, shift, rest);
    ShiftedRecords(e, base, size, held, n, shift, rest, base');
  }

  /** What is left after taking out the range at the base records the bytes shifted down. */
  method Leave(edges: Edges, base: u32, ghost size: nat, ghost held: map<nat, byte>) returns (rest: Edges)
    requires Separated(edges) && Bounded(edges, base, size) && Records(edges, base, size, held)
    requires base in edges && edges[base] <= size <= MAX_WINDOW
    ensures Separated(rest) && Within(rest, Add(base, edges[base]), size - edges[base])
    ensures Records(rest, Add(base, edges[base]), size - edges[base], ShiftDown(held, edges[base], size))
  {
    ghost var shift;
    rest, shift := TakeFirst(edges, base, edges[base]);
    ShiftedAll(edges, base, size, held, edges[base], shift, rest, Add(base, edges[base]));
  }

  // ---------------------------------------------------------------------------------------------
  // The imperative window
  // ---------------------------------------------------------------------------------------------

  class Window {
    var buffer: seq<byte>
    const capacity: nat
    var sequence: u32
    var head: nat
    var size: nat
    var edges: Edges

    ghost predicate Valid()
      reads this
    {
      && Ring.Fits(buffer, head, size)
      && |buffer| <= capacity <= MAX_WINDOW
      && Separated(edges) && Within(edges, sequence, size)
    }

    ghost function View(): WindowState
      requires Ring.Fits(buffer, head, size)
      reads this
    {
      WindowState(capacity, sequence, size, HeldIn(buffer, head, size, edges, sequence))
    }

    lemma ViewOk()
      requires Valid()
      ensures View().Ok()
    {
      assert !Covered(edges, sequence + 0);
    }

    constructor WithCapacity(capacity: nat, sequence: u32)
      requires capacity <= MAX_WINDOW
      ensures Valid() && View() == WindowState(capacity, sequence, 0, map[])
    {
      this.buffer := [];
      this.capacity := capacity;
      this.sequence := sequence;
      this.head := 0;
      this.size := 0;
      this.edges := map[];
    }

    function Remaining(): (r: nat)
      requires Valid()
      reads this
      ensures r == View().Remaining()
    {
      capacity - size
    }

    /** Places the segment, trimming what is already delivered, and accepts it if it fits. */
    method Append(seqNo: u32, payload: seq<byte>) returns (outcome: Outcome)
      requires Valid() && Segment(payload)
      modifies this
      ensures Valid()
      ensures old(View()).Ok() && (View(), outcome) == old(View()).Append(seqNo, payload)
    {
      ViewOk();
      match Locate(sequence, seqNo, payload) {
        case Broken => outcome := Fault;
        case Old => outcome := Nothing;
        case Take(at, body) =>
          if at + |body| > capacity {
            outcome := Full;
          } else {
            outcome := Accept(if Sub(seqNo, sequence) <= MAX_WINDOW then seqNo else sequence, body);
          }
      }
    }

    /** Stores a segment that fits and hands out what is now in order. */
    method Accept(from: u32, body: seq<byte>) returns (outcome: Outcome)
      requires Valid() && body != [] && Sub(from, sequence) + |body| <= capacity
      modifies this
      ensures Valid()
      ensures (View(), outcome) == old(View()).Accept(Sub(from, old(sequence)), body)
    {
      ghost var before := View();
      EnsureRoom(Sub(from, sequence) + |body|);
      Insert(from, body);
      ghost var stored := View();
      outcome := Pop();
      AcceptIs(before, Sub(from, before.sequence), body, stored, View(), outcome);
    }

    /** Extends the buffer so that `need` bytes fit. */
    method EnsureRoom(need: nat)
      requires Valid() && need <= capacity
      modifies this`buffer
      ensures Valid() && need <= |buffer| && View() == old(View())
    {
      if need > |buffer| {
        var newLength := Ring.GrownLength(capacity, |buffer|, need);
        GrowRefines(buffer, head, size, edges, sequence, newLength);
        buffer := Ring.Grow(buffer, head, size, newLength);
      }
    }

    /** Stores the bytes and updates the size and the ranges. */
    method Insert(from: u32, body: seq<byte>)
      requires Valid() && body != [] && Sub(from, sequence) + |body| <= |buffer|
      modifies this`buffer, this`size, this`edges
      ensures Ring.Fits(buffer, head, size) && |buffer| == old(|buffer|)
      ensures Separated(edges) && Bounded(edges, sequence, size) && edges != map[]
      ensures View() == old(View()).(size := Max(old(size), Sub(from, sequence) + |body|),
                                     held := Stored(old(View()).held, Sub(from, sequence), body, old(size)))
    {
      var at := Sub(from, sequence);
      ghost var held := View().held;
      ghost var size' := Max(size, at + |body|);
      var merged := Enter(edges, sequence, size, from, held, body, |body|);
      ghost var held' := Stored(held, at, body, size);
      StoreRefines(buffer, head, size, edges, sequence, at, body, merged);
      buffer := Ring.Store(buffer, head, at, body);
      assert HeldIn(buffer, head, size', merged, sequence) == held';
      assert SizeAfter(sequence, size, from, |body|) == size' by {
        SizeAfterIsMax(sequence, size, from, |body|);
      }
      size := SizeAfter(sequence, size, from, |body|);
      edges := merged;
    }

    /** Hands out the run at the base, if there is one, and moves the base past it. */
    method Pop() returns (outcome: Outcome)
      requires Ring.Fits(buffer, head, size) && |buffer| <= capacity <= MAX_WINDOW
      requires Separated(edges) && Bounded(edges, sequence, size) && edges != map[]
      modifies this`sequence, this`head, this`size, this`edges
      ensures Valid()
      ensures
        var n := RunEnd(old(View()).held, 0, old(size));
        if n == 0 then outcome == Nothing && View() == old(View())
        else
          && outcome == Delivered(FirstBytes(old(View()).held, n))
          && View() == WindowState(capacity, Add(old(sequence), n), old(size) - n,
                                   ShiftDown(old(View()).held, n, old(size)))
    {
      FirstRangeIsRun(edges, sequence, size, View().held);
      var first := First(edges.Keys);
      if first % U32_SIZE == sequence {
        FirstIsBase(edges, sequence, size, first);
        outcome := PopRun();
      } else {
        assert sequence !in edges;
        outcome := Nothing;
      }
    }

    /** The filled ranges as sequence numbers, in key order. */
    method Filled() returns (ranges: seq<(u32, u32)>)
      requires Valid()
      ensures ranges == View().Filled()
    {
      var keys := SortedKeys(edges);
      RunsAreRanges(edges, sequence, size, View().held, keys);
      ranges := [];
      for i := 0 to |keys|
        invariant |ranges| == i
        invariant forall j :: 0 <= j < i ==> ranges[j] == View().Filled()[j]
      {
        ranges := ranges + [EdgeOf(keys[i], edges[keys[i]])];
      }
    }

    /** Reads the run at the base, drops its range and moves the base and the head past it. */
    method PopRun() returns (outcome: Outcome)
      requires Ring.Fits(buffer, head, size) && size <= MAX_WINDOW
      requires Separated(edges) && Bounded(edges, sequence, size) && sequence in edges
      modifies this`sequence, this`head, this`size, this`edges
      ensures Ring.Fits(buffer, head, size) && Separated(edges) && Within(edges, sequence, size)
      ensures
        var n := old(edges[sequence]);
        && 0 < n == RunEnd(old(View()).held, 0, old(size))
        && outcome == Delivered(FirstBytes(old(View()).held, n))
        && View() == WindowState(capacity, Add(old(sequence), n), old(size) - n,
                                 ShiftDown(old(View()).held, n, old(size)))
    {
      ghost var held := View().held;
      FirstRangeIsRun(edges, sequence, size, held);
      var n := edges[sequence];
      var next := Add(sequence, n);
      var rest := Leave(edges, sequence, size, held);
      PopRunRefines(buffer, head, size, edges, sequence, n, rest, next);
      outcome := Delivered(Ring.Load(buffer, head, 0, n));
      var newHead := AdvanceHead(|buffer|, head, n);
      edges, sequence, head, size := rest, next, newHead, size - n;
    }
  }

  /** The keys in the order in which a sorted map lists them. */
  method SortedKeys(edges: Edges) returns (keys: seq<nat>)
    ensures Ascending(keys)
    ensures forall k :: k in keys <==> k in edges
  {
    keys := [];
    var todo := edges.Keys;
    while todo != {}
      invariant Ascending(keys) && todo <= edges.Keys
      invariant forall i, k :: 0 <= i < |keys| && k in todo ==> keys[i] < k
      invariant forall k :: k in edges <==> k in keys || k in todo
      decreases |todo|
    {
      var k := First(todo);
      keys := keys + [k];
      todo := todo - {k};
    }
  }

  ghost predicate Ascending(keys: seq<nat>) {
    forall i, j :: 0 <= i < j < |keys| ==> keys[i] < keys[j]
  }

  ghost function RunOf(e: Edges, base: nat, k: nat): (nat, nat)
    requires k in e && base <= k
  {
    (k - base, k - base + e[k])
  }

  /** The runs of held bytes are the ranges in key order. */
  lemma RunsAreRanges(e: Edges, base: nat, size: nat, held: map<nat, byte>, keys: seq<nat>)
    requires Separated(e) && Within(e, base, size) && Records(e, base, size, held)
    requires Ascending(keys) && forall k :: k in keys <==> k in e
    ensures
      var runs := RunsFrom(held, 0, size);
      |runs| == |keys| && forall i :: 0 <= i < |runs| ==> runs[i] == RunOf(e, base, keys[i])
  {
    var runs := seq(|keys|, i requires 0 <= i < |keys| => RunOf(e, base, keys[i]));
    KeysSeparated(e, base, size, keys, runs);
    RunsWithin(held, 0, size);
    forall p: nat
      ensures InRuns(runs, p) <==> InRuns(RunsFrom(held, 0, size), p)
    {
      RunsCover(held, 0, size, p);
      KeysCover(e, base, size, keys, runs, p);
    }
    RunsUnique(runs, RunsFrom(held, 0, size), 0, size);
  }

  lemma KeysSeparated(e: Edges, base: nat, size: nat, keys: seq<nat>, runs: seq<(nat, nat)>)
    requires Separated(e) && Within(e, base, size) && Ascending(keys) && |runs| == |keys|
    requires forall i :: 0 <= i < |keys| ==> keys[i] in e && runs[i] == RunOf(e, base, keys[i])
    ensures SeparatedRuns(runs, 0, size)
  {
  }

  lemma KeysCover(e: Edges, base: nat, size: nat, keys: seq<nat>, runs: seq<(nat, nat)>, p: nat)
    requires Within(e, base, size) && |runs| == |keys| && forall k :: k in keys <==> k in e
    requires forall i :: 0 <= i < |keys| ==> runs[i] == RunOf(e, base, keys[i])
    ensures InRuns(runs, p) <==> p < size && Covered(e, base + p)
  {
    if InRuns(runs, p) {
      var i :| 0 <= i < |runs| && runs[i].0 <= p < runs[i].1;
      assert keys[i] in e && keys[i] <= base + p < keys[i] + e[keys[i]];
    }
    if Covered(e, base + p) {
      var k :| k in e && k <= base + p < k + e[k];
      var i :| 0 <= i < |keys| && keys[i] == k;
      assert runs[i].0 <= p < runs[i].1;
    }
  }

  /** Storing and then popping is `Accept`. */
  lemma AcceptIs(w: WindowState, at: nat, body: seq<byte>, stored: WindowState, w': WindowState, outcome: Outcome)
    requires at + |body| <= w.capacity && w.size <= w.capacity <= MAX_WINDOW
    requires stored == w.(size := Max(w.size, at + |body|), held := Stored(w.held, at, body, w.size))
    requires
      var n := RunEnd(stored.held, 0, stored.size);
      if n == 0 then outcome == Nothing && w' == stored
      else
        && outcome == Delivered(FirstBytes(stored.held, n))
        && w' == WindowState(w.capacity, Add(w.sequence, n), stored.size - n, ShiftDown(stored.held, n, stored.size))
    ensures (w', outcome) == w.Accept(at, body)
  {
    assert w.Popped(at, body) == RunEnd(stored.held, 0, stored.size);
  }

  /** The 32-bit truncation of the first key is the base only for the range at the base. */
  lemma FirstIsBase(e: Edges, base: u32, size: nat, first: nat)
    requires Separated(e) && Bounded(e, base, size) && size <= MAX_WINDOW && first in e
    requires first % U32_SIZE == base
    ensures first == base
  {
    assert base <= first < base + MAX_WINDOW;
  }
}
