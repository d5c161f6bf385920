/**
 * The 32-bit sequence arithmetic of the program (src/cache/mod.rs, src/lib.rs).
 *
 * Every addition and subtraction of sequence numbers is a checked operation with a wrap branch.
 * The wrap branches work modulo 2^32 - 1, not modulo 2^32 as section 3.3 of RFC 793 asks, so all
 * results of this project are stated in the program's own arithmetic; `AddAgainstRfc` and
 * `SubAgainstRfc` say exactly where the two agree.
 */
module SequenceNumbers {
  const U32_MAX: nat := 0xFFFF_FFFF
  const U32_SIZE: nat := 0x1_0000_0000

  /** MAX_U32_WINDOW_SIZE: the largest distance that counts as "ahead". */
  const MAX_WINDOW: nat := 16 * 1024 * 1024

  type u32 = x: nat | x <= U32_MAX

  /** `a.checked_add(n).unwrap_or_else(|| n - (u32::MAX - a))` */
  function Add(a: u32, n: u32): u32 {
    if a + n <= U32_MAX then a + n else n - (U32_MAX - a)
  }

  /** `a.checked_sub(b).unwrap_or_else(|| a + (u32::MAX - b))` */
  function Sub(a: u32, b: u32): u32 {
    if b <= a then a - b else a + (U32_MAX - b)
  }

  /** `x` counts as being at or after `y`. */
  predicate Ahead(x: u32, y: u32) {
    Sub(x, y) <= MAX_WINDOW
  }

  /** Subtraction undoes addition for every start and every distance below 2^32 - 1. */
  lemma SubUndoesAdd(a: u32, n: u32)
    ensures Sub(Add(a, n), a) == n <==> n < U32_MAX || a == 0
  {
  }

  /** Addition undoes subtraction except that 0 is never reached from a start above 0. */
  lemma AddUndoesSub(a: u32, b: u32)
    ensures Add(b, Sub(a, b)) == a <==> a > 0 || b == 0
  {
  }

  /** Against section 3.3 of RFC 793: equal exactly when nothing wraps, one more on a wrap. */
  lemma AddAgainstRfc(a: u32, n: u32)
    ensures Add(a, n) == (a + n) % U32_SIZE <==> a + n <= U32_MAX
    ensures a + n > U32_MAX ==> Add(a, n) == (a + n) % U32_SIZE + 1
  {
  }

  /** Against section 3.3 of RFC 793: equal exactly when nothing wraps, one less on a wrap. */
  lemma SubAgainstRfc(a: u32, b: u32)
    ensures Sub(a, b) == (a - b) % U32_SIZE <==> b <= a
    ensures b > a ==> Sub(a, b) == (a - b) % U32_SIZE - 1
  {
  }

  /**
   * The number that position `pos` of a stream carries when position 0 carries `start`: the
   * program's arithmetic, one position at a time, for streams of any length.
   */
  function SeqAt(start: u32, pos: nat): u32 {
    if pos == 0 then start else Add(SeqAt(start, pos - 1), 1)
  }

  lemma {:induction false} SeqAtStep(start: u32, pos: nat, n: nat)
    requires n <= U32_MAX
    ensures SeqAt(start, pos + n) == Add(SeqAt(start, pos), n)
    decreases n
  {
    if n > 0 {
      SeqAtStep(start, pos, n - 1);
    }
  }

  /** Numbering from a later position gives the same numbers. */
  lemma {:induction false} SeqAtRebase(start: u32, pos: nat, more: nat)
    ensures SeqAt(SeqAt(start, pos), more) == SeqAt(start, pos + more)
    decreases more
  {
    if more > 0 {
      SeqAtRebase(start, pos, more - 1);
    }
  }

  /** Positions less than a turn apart are related by `Add`, whichever comes first. */
  lemma Apart(start: u32, p: nat, q: nat)
    requires p < q + U32_MAX && q < p + U32_MAX
    ensures p <= q ==> SeqAt(start, q) == Add(SeqAt(start, p), q - p)
    ensures q < p ==> SeqAt(start, p) == Add(SeqAt(start, q), p - q)
  {
    if p <= q {
      SeqAtStep(start, p, q - p);
    } else {
      SeqAtStep(start, q, p - q);
    }
  }

  /** `Sub` of two numbers related by `Add`. */
  lemma SubOfAdd(a: u32, n: nat)
    requires n < U32_MAX
    ensures Sub(Add(a, n), a) == n
    ensures n > 0 ==> Sub(a, Add(a, n)) == U32_MAX - n && Add(a, n) != a
  {
  }

  /** The distance of a later position is the true one, that of an earlier one its complement. */
  lemma Distance(start: u32, p: nat, q: nat)
    requires p < q + U32_MAX && q < p + U32_MAX
    ensures Sub(SeqAt(start, q), SeqAt(start, p)) == if p <= q then q - p else U32_MAX - (p - q)
    ensures SeqAt(start, p) == SeqAt(start, q) <==> p == q
  {
    Apart(start, p, q);
    if p <= q {
      SubOfAdd(SeqAt(start, p), q - p);
    } else {
      SubOfAdd(SeqAt(start, q), p - q);
    }
  }

  /** Positions at most a window ahead and less than the rest of a turn behind compare correctly. */
  lemma AheadByPosition(start: u32, p: nat, q: nat)
    requires q <= p + MAX_WINDOW && p + MAX_WINDOW < q + U32_MAX
    ensures Ahead(SeqAt(start, q), SeqAt(start, p)) <==> p <= q
    ensures p <= q ==> Sub(SeqAt(start, q), SeqAt(start, p)) == q - p
  {
    Distance(start, p, q);
  }
}
