/**
 * The growable ring buffer under both caches (src/cache/mod.rs): byte `i` of the contents lives
 * at slot `head + i`, wrapped once. `Contents` is the plain sequence the ring stands for.
 */
module Ring {
  import opened Basics

  /** A head and a number of bytes that a buffer can hold. */
  predicate Fits(buffer: seq<byte>, head: nat, size: nat) {
    && size <= |buffer|
    && if buffer == [] then head == 0 else head < |buffer|
  }

  function Slot(n: nat, head: nat, i: nat): (slot: nat)
    requires head < n && i < n
    ensures slot < n
  {
    if head + i < n then head + i else head + i - n
  }

  lemma WrapOnce(x: nat, n: nat)
    requires 0 < n && x < 2 * n
    ensures x % n == if x < n then x else x - n
  {
    if x >= n {
      assert x == n * 1 + (x - n);
      assert x / n == 1;
    }
  }

  function Contents(buffer: seq<byte>, head: nat, size: nat): (s: seq<byte>)
    requires Fits(buffer, head, size)
    ensures |s| == size
  {
    seq(size, i requires 0 <= i < size => buffer[Slot(|buffer|, head, i)])
  }

  /** `tail()`: one past the last byte, moved back by one turn when it reaches the end. */
  function Tail(n: nat, head: nat, size: nat): nat {
    if head + size >= n then head + size - n else head + size
  }

  function Zeros(n: nat): (s: seq<byte>)
    ensures |s| == n
  {
    seq(n, _ => 0)
  }

  /** `Vec::copy_within(lo..hi, dst)`: the source range is read before anything is written. */
  function CopyWithin(b: seq<byte>, lo: nat, hi: nat, dst: nat): (r: seq<byte>)
    requires lo <= hi <= |b| && dst + (hi - lo) <= |b|
    ensures |r| == |b|
  {
    b[..dst] + b[lo..hi] + b[dst + (hi - lo)..]
  }

  /** `b[at..at + src.len()].copy_from_slice(src)` */
  function CopyFrom(b: seq<byte>, at: nat, src: seq<byte>): (r: seq<byte>)
    requires at + |src| <= |b|
    ensures |r| == |b|
  {
    b[..at] + src + b[at + |src|..]
  }

  /** The new length chosen when `need` bytes must fit. */
  function GrownLength(capacity: nat, length: nat, need: nat): nat {
    Min(capacity, Max(length * 3 / 2, need))
  }

  /** What is needed fits, the capacity is kept, and the buffer grows by half unless the capacity forbids it. */
  lemma GrownLengthFits(capacity: nat, length: nat, need: nat)
    requires need <= capacity
    ensures need <= GrownLength(capacity, length, need) <= capacity
    ensures Min(capacity, length + length / 2) <= GrownLength(capacity, length, need)
  {
  }

  /** Extends the buffer and moves the wrapped part behind the old end, in two pieces. */
  function Grow(buffer: seq<byte>, head: nat, size: nat, newLength: nat): (r: seq<byte>)
    requires Fits(buffer, head, size) && |buffer| <= newLength
    ensures |r| == newLength
  {
    var n := |buffer|;
    var tail := Tail(n, head, size);
    var extended := buffer + Zeros(newLength - n);
    if tail <= head then
      var lenA := Min(tail, newLength - n);
      var moved := CopyWithin(extended, 0, lenA, n);
      var lenB := tail - lenA;
      if lenB > 0 then CopyWithin(moved, lenA, lenA + lenB, 0) else moved
    else
      extended
  }

  /** Growing keeps the byte at every logical offset. */
  lemma GrowKeepsContents(buffer: seq<byte>, head: nat, size: nat, newLength: nat)
    requires Fits(buffer, head, size) && |buffer| <= newLength
    ensures Fits(Grow(buffer, head, size, newLength), head, size)
    ensures Contents(Grow(buffer, head, size, newLength), head, size) == Contents(buffer, head, size)
  {
    var grown := Grow(buffer, head, size, newLength);
    forall i | 0 <= i < size
      ensures Contents(grown, head, size)[i] == Contents(buffer, head, size)[i]
    {
      GrowKeepsByte(buffer, head, size, newLength, i);
    }
  }

  lemma GrowKeepsByte(buffer: seq<byte>, head: nat, size: nat, newLength: nat, i: nat)
    requires Fits(buffer, head, size) && |buffer| <= newLength && i < size
    ensures Grow(buffer, head, size, newLength)[Slot(newLength, head, i)]
         == buffer[Slot(|buffer|, head, i)]
  {
    var n := |buffer|;
    var extended := buffer + Zeros(newLength - n);
    assert extended[..n] == buffer;
    if Tail(n, head, size) <= head {
      var tail := Tail(n, head, size);
      var lenA := Min(tail, newLength - n);
      var moved := CopyWithin(extended, 0, lenA, n);
      if head + i < n {
        assert moved[head + i] == buffer[head + i];
      } else {
        var j := head + i - n;
        assert j < tail;
        if j < lenA {
          assert moved[n + j] == buffer[j];
        } else {
          assert moved[j] == buffer[j];
        }
      }
    }
  }

  /** Copies the payload to logical offset `at`: up to the end of the buffer, then from its start. */
  function Store(buffer: seq<byte>, head: nat, at: nat, payload: seq<byte>): (r: seq<byte>)
    requires Fits(buffer, head, at + |payload|) && buffer != []
    ensures |r| == |buffer|
  {
    var tail := Tail(|buffer|, head, at);
    var lenA := Min(|buffer| - tail, |payload|);
    var first := CopyFrom(buffer, tail, payload[..lenA]);
    if |payload| - lenA > 0 then CopyFrom(first, 0, payload[lenA..]) else first
  }

  /** A store writes the payload at its logical offset and touches no other logical offset. */
  lemma StoreByte(buffer: seq<byte>, head: nat, at: nat, payload: seq<byte>, i: nat)
    requires Fits(buffer, head, at + |payload|) && buffer != [] && i < |buffer|
    ensures Store(buffer, head, at, payload)[Slot(|buffer|, head, i)]
         == if at <= i < at + |payload| then payload[i - at] else buffer[Slot(|buffer|, head, i)]
  {
    var n, tail := |buffer|, Tail(|buffer|, head, at);
    var lenA, slot := Min(n - tail, |payload|), Slot(n, head, i);
    SlotCases(n, head, at, |payload|, i);
    if lenA < |payload| {
      StoreTwo(buffer, tail, payload, lenA, slot);
    } else {
      assert payload[..lenA] == payload;
      StoreOne(buffer, tail, payload, slot);
    }
  }

  /** Where a logical offset lies when bytes are stored at offset `at`: in the first part, the second, or neither. */
  lemma SlotCases(n: nat, head: nat, at: nat, length: nat, i: nat)
    requires head < n && at + length <= n && i < n
    ensures
      var tail, slot := Tail(n, head, at), Slot(n, head, i);
      var lenA := Min(n - tail, length);
      && (at <= i < at + lenA <==> tail <= slot < tail + lenA)
      && (at <= i < at + lenA ==> slot - tail == i - at)
      && (at + lenA <= i < at + length <==> lenA < length && slot < length - lenA)
      && (at + lenA <= i < at + length ==> slot + lenA == i - at)
      && (lenA < length ==> tail + lenA == n && length - lenA <= tail)
  {
  }

  lemma StoreOne(b: seq<byte>, at: nat, src: seq<byte>, i: nat)
    requires at + |src| <= |b| && i < |b|
    ensures CopyFrom(b, at, src)[i] == if at <= i < at + |src| then src[i - at] else b[i]
  {
  }

  lemma StoreTwo(b: seq<byte>, at: nat, src: seq<byte>, k: nat, i: nat)
    requires k <= |src| && at + k == |b| && |src| - k <= at && i < |b|
    ensures CopyFrom(CopyFrom(b, at, src[..k]), 0, src[k..])[i] ==
      if i < |src| - k then src[k + i] else if at <= i then src[i - at] else b[i]
  {
    StoreOne(b, at, src[..k], i);
    StoreOne(CopyFrom(b, at, src[..k]), 0, src[k..], i);
  }

  /** Copies `length` bytes from logical offset `at`, in the two pieces of a wrapped read. */
  function Load(buffer: seq<byte>, head: nat, at: nat, length: nat): (r: seq<byte>)
    requires Fits(buffer, head, at + length) && at < |buffer|
    ensures |r| == length
  {
    var start := Tail(|buffer|, head, at);
    var lenA := Min(length, |buffer| - start);
    buffer[start..start + lenA] + buffer[..length - lenA]
  }

  lemma LoadIsSlice(buffer: seq<byte>, head: nat, size: nat, at: nat, length: nat)
    requires Fits(buffer, head, size) && at + length <= size && at < |buffer|
    ensures Load(buffer, head, at, length) == Contents(buffer, head, size)[at..at + length]
  {
    var start := Tail(|buffer|, head, at);
    var lenA := Min(length, |buffer| - start);
    var loaded, slice := Load(buffer, head, at, length), Contents(buffer, head, size)[at..at + length];
    forall i | 0 <= i < length
      ensures loaded[i] == slice[i]
    {
      assert slice[i] == buffer[Slot(|buffer|, head, at + i)];
      if i < lenA {
        assert loaded[i] == buffer[start + i];
      } else {
        assert loaded[i] == buffer[i - lenA];
      }
    }
  }
}
