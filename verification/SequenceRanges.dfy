/**
 * Set difference of ranges of sequence numbers (src/lib.rs:1398-1447) and its use to find the
 * cached bytes that no SACK block covers (src/lib.rs:728-746).
 *
 * A range is a pair of sequence numbers, `(first, one past last)`. Its meaning is given by stream
 * positions: `Numbers` turns pairs of positions into pairs of numbers.
 */
module SequenceRanges {
  import opened SequenceNumbers

  type Range = (u32, u32)
  type Span = (nat, nat)

  /** `disjoint_u32_range`: what is left of `main` without `sub`. */
  function Disjoint(main: Range, sub: Range): seq<Range> {
    var sizeMain := Sub(main.1, main.0);
    var diffFirst := Sub(sub.0, main.0);
    var diffSecond := Sub(sub.1, main.1);
    if diffFirst <= MAX_WINDOW then
      if diffSecond > MAX_WINDOW then [(main.0, sub.0), (sub.1, main.1)]
      else if diffFirst >= sizeMain then [main]
      else [(main.0, sub.0)]
    else if diffSecond > MAX_WINDOW then
      if Sub(sub.1, main.0) > MAX_WINDOW then [main] else [(sub.1, main.1)]
    else []
  }

  function SubtractOne(ranges: seq<Range>, sack: Range): seq<Range> {
    if ranges == [] then [] else Disjoint(ranges[0], sack) + SubtractOne(ranges[1..], sack)
  }

  function SubtractAll(ranges: seq<Range>, sacks: seq<Range>): seq<Range>
    decreases |sacks|
  {
    if sacks == [] then ranges else SubtractAll(SubtractOne(ranges, sacks[0]), sacks[1..])
  }

  /** The nested loops of the selective retransmission: every range against every block in turn. */
  method Unacknowledged(main: Range, sacks: seq<Range>) returns (ranges: seq<Range>)
    ensures ranges == SubtractAll([main], sacks)
  {
    ranges := [main];
    for i := 0 to |sacks|
      invariant SubtractAll(ranges, sacks[i..]) == SubtractAll([main], sacks)
    {
      assert sacks[i..][0] == sacks[i] && sacks[i..][1..] == sacks[i + 1..];
      ranges := WithoutBlock(ranges, sacks[i]);
    }
  }

  /** The inner loop: every range against one block. */
  method WithoutBlock(ranges: seq<Range>, sack: Range) returns (left: seq<Range>)
    ensures left == SubtractOne(ranges, sack)
  {
    left := [];
    for j := 0 to |ranges|
      invariant left + SubtractOne(ranges[j..], sack) == SubtractOne(ranges, sack)
    {
      SubtractNext(left, ranges, j, sack);
      left := left + Disjoint(ranges[j], sack);
    }
  }

  lemma SubtractNext(left: seq<Range>, ranges: seq<Range>, j: nat, sack: Range)
    requires j < |ranges|
    ensures left + SubtractOne(ranges[j..], sack)
            == (left + Disjoint(ranges[j], sack)) + SubtractOne(ranges[j + 1..], sack)
  {
    assert ranges[j..][0] == ranges[j] && ranges[j..][1..] == ranges[j + 1..];
  }

  // ---------------------------------------------------------------------------------------------
  // The same on stream positions
  // ---------------------------------------------------------------------------------------------

  function Number(start: u32, span: Span): Range { (SeqAt(start, span.0), SeqAt(start, span.1)) }

  function Numbers(start: u32, spans: seq<Span>): seq<Range> {
    if spans == [] then [] else [Number(start, spans[0])] + Numbers(start, spans[1..])
  }

  lemma {:induction false} NumbersAppend(start: u32, a: seq<Span>, b: seq<Span>)
    ensures Numbers(start, a + b) == Numbers(start, a) + Numbers(start, b)
    decreases |a|
  {
    if a == [] {
      assert a + b == b;
    } else {
      assert (a + b)[1..] == a[1..] + b;
      NumbersAppend(start, a[1..], b);
    }
  }

  lemma {:induction false} NumbersAt(start: u32, spans: seq<Span>)
    ensures |Numbers(start, spans)| == |spans|
    ensures forall i :: 0 <= i < |spans| ==> Numbers(start, spans)[i] == Number(start, spans[i])
    decreases |spans|
  {
    if spans != [] {
      NumbersAt(start, spans[1..]);
    }
  }

  /** The difference of two spans by comparing positions. */
  function Minus(main: Span, sub: Span): seq<Span> {
    if main.0 <= sub.0 then
      if sub.1 < main.1 then [(main.0, sub.0), (sub.1, main.1)]
      else if sub.0 >= main.1 then [main]
      else [(main.0, sub.0)]
    else if sub.1 < main.1 then
      if sub.1 < main.0 then [main] else [(sub.1, main.1)]
    else []
  }

  /** A block the arithmetic can relate to the `n` bytes from `base`: in order, at most a window ahead. */
  predicate Near(base: nat, n: nat, block: Span) {
    && block.0 <= block.1 <= base + MAX_WINDOW
    && base + n + MAX_WINDOW < block.0 + U32_MAX
  }

  /** `Disjoint` computes the difference of the positions, wrap or no wrap. */
  lemma DisjointIsMinus(start: u32, base: nat, n: nat, main: Span, sub: Span)
    requires n <= MAX_WINDOW && base <= main.0 <= main.1 <= base + n && Near(base, n, sub)
    ensures Disjoint(Number(start, main), Number(start, sub)) == Numbers(start, Minus(main, sub))
  {
    AheadByPosition(start, main.0, main.1);
    AheadByPosition(start, main.0, sub.0);
    AheadByPosition(start, main.1, sub.1);
    AheadByPosition(start, main.0, sub.1);
    DisjointByDistance(main, sub, Number(start, main), Number(start, sub));
    NumbersAt(start, Minus(main, sub));
  }

  /** `Disjoint` only looks at four distances. */
  lemma DisjointByDistance(main: Span, sub: Span, m: Range, s: Range)
    requires Sub(m.1, m.0) == main.1 - main.0
    requires (Ahead(s.0, m.0) <==> main.0 <= sub.0) && (main.0 <= sub.0 ==> Sub(s.0, m.0) == sub.0 - main.0)
    requires Ahead(s.1, m.1) <==> main.1 <= sub.1
    requires Ahead(s.1, m.0) <==> main.0 <= sub.1
    ensures Disjoint(m, s) ==
      if main.0 <= sub.0 then
        if sub.1 < main.1 then [(m.0, s.0), (s.1, m.1)]
        else if sub.0 >= main.1 then [m]
        else [(m.0, s.0)]
      else if sub.1 < main.1 then
        if sub.1 < main.0 then [m] else [(s.1, m.1)]
      else []
  {
  }

  function MinusOne(spans: seq<Span>, block: Span): seq<Span> {
    if spans == [] then [] else Minus(spans[0], block) + MinusOne(spans[1..], block)
  }

  function MinusAll(spans: seq<Span>, blocks: seq<Span>): seq<Span>
    decreases |blocks|
  {
    if blocks == [] then spans else MinusAll(MinusOne(spans, blocks[0]), blocks[1..])
  }

  /** Spans inside `[lo, hi]`, in order and not overlapping. */
  ghost predicate Tidy(spans: seq<Span>, lo: nat, hi: nat) {
    && (forall i :: 0 <= i < |spans| ==> lo <= spans[i].0 <= spans[i].1 <= hi)
    && (forall i, j :: 0 <= i < j < |spans| ==> spans[i].1 <= spans[j].0)
  }

  ghost predicate InSpans(spans: seq<Span>, x: nat) {
    exists i :: 0 <= i < |spans| && spans[i].0 <= x < spans[i].1
  }

  lemma {:induction false} MinusOneTidy(spans: seq<Span>, lo: nat, hi: nat, block: Span)
    requires lo <= hi && Tidy(spans, lo, hi) && block.0 <= block.1
    ensures Tidy(MinusOne(spans, block), lo, hi)
    decreases |spans|
  {
    if spans != [] {
      var rest := spans[1..];
      var first := Minus(spans[0], block);
      assert Tidy(first, lo, spans[0].1);
      assert Tidy(rest, spans[0].1, hi);
      MinusOneTidy(rest, spans[0].1, hi, block);
      TidyAppend(first, MinusOne(rest, block), lo, spans[0].1, hi);
    }
  }

  lemma TidyAppend(a: seq<Span>, b: seq<Span>, lo: nat, mid: nat, hi: nat)
    requires lo <= mid <= hi && Tidy(a, lo, mid) && Tidy(b, mid, hi)
    ensures Tidy(a + b, lo, hi)
  {
  }

  lemma InAppend(a: seq<Span>, b: seq<Span>, x: nat)
    ensures InSpans(a + b, x) <==> InSpans(a, x) || InSpans(b, x)
  {
    if InSpans(a, x) {
      var i :| 0 <= i < |a| && a[i].0 <= x < a[i].1;
      assert (a + b)[i] == a[i];
    }
    if InSpans(b, x) {
      var i :| 0 <= i < |b| && b[i].0 <= x < b[i].1;
      assert (a + b)[|a| + i] == b[i];
    }
  }

  lemma InMinus(main: Span, block: Span, x: nat)
    requires main.0 <= main.1 && block.0 <= block.1
    ensures InSpans(Minus(main, block), x) <==> main.0 <= x < main.1 && !(block.0 <= x < block.1)
  {
    var m := Minus(main, block);
    if main.0 <= x < main.1 && !(block.0 <= x < block.1) {
      assert m[0].0 <= x < m[0].1 || (|m| == 2 && m[1].0 <= x < m[1].1);
    }
  }

  lemma {:induction false} InMinusOne(spans: seq<Span>, block: Span, x: nat)
    requires (forall i :: 0 <= i < |spans| ==> spans[i].0 <= spans[i].1) && block.0 <= block.1
    ensures InSpans(MinusOne(spans, block), x) <==> InSpans(spans, x) && !(block.0 <= x < block.1)
    decreases |spans|
  {
    if spans != [] {
      InMinusOne(spans[1..], block, x);
      InMinus(spans[0], block, x);
      InAppend(Minus(spans[0], block), MinusOne(spans[1..], block), x);
      InAppend([spans[0]], spans[1..], x);
      assert [spans[0]] + spans[1..] == spans;
      assert InSpans([spans[0]], x) <==> spans[0].0 <= x < spans[0].1 by {
        assert [spans[0]][0] == spans[0];
      }
    }
  }

  lemma {:induction false} SubtractOneIsMinus(start: u32, base: nat, n: nat, spans: seq<Span>, block: Span)
    requires n <= MAX_WINDOW && Tidy(spans, base, base + n) && Near(base, n, block)
    ensures SubtractOne(Numbers(start, spans), Number(start, block)) == Numbers(start, MinusOne(spans, block))
    decreases |spans|
  {
    if spans != [] {
      DisjointIsMinus(start, base, n, spans[0], block);
      SubtractOneIsMinus(start, base, n, spans[1..], block);
      assert Numbers(start, spans)[1..] == Numbers(start, spans[1..]);
      NumbersAppend(start, Minus(spans[0], block), MinusOne(spans[1..], block));
    }
  }

  /** No block contains `x`. */
  ghost predicate Outside(blocks: seq<Span>, x: nat) {
    forall i :: 0 <= i < |blocks| ==> !(blocks[i].0 <= x < blocks[i].1)
  }

  lemma {:induction false} SubtractAllIsMinus(start: u32, base: nat, n: nat, spans: seq<Span>, blocks: seq<Span>)
    requires n <= MAX_WINDOW && Tidy(spans, base, base + n)
    requires forall i :: 0 <= i < |blocks| ==> Near(base, n, blocks[i])
    ensures SubtractAll(Numbers(start, spans), Numbers(start, blocks)) == Numbers(start, MinusAll(spans, blocks))
    ensures Tidy(MinusAll(spans, blocks), base, base + n)
    decreases |blocks|
  {
    if blocks != [] {
      SubtractOneIsMinus(start, base, n, spans, blocks[0]);
      MinusOneTidy(spans, base, base + n, blocks[0]);
      assert Numbers(start, blocks)[1..] == Numbers(start, blocks[1..]);
      SubtractAllIsMinus(start, base, n, MinusOne(spans, blocks[0]), blocks[1..]);
    }
  }

  lemma {:induction false} InMinusAll(lo: nat, hi: nat, spans: seq<Span>, blocks: seq<Span>, x: nat)
    requires lo <= hi && Tidy(spans, lo, hi) && forall i :: 0 <= i < |blocks| ==> blocks[i].0 <= blocks[i].1
    ensures InSpans(MinusAll(spans, blocks), x) <==> InSpans(spans, x) && Outside(blocks, x)
    decreases |blocks|
  {
    if blocks != [] {
      InMinusOne(spans, blocks[0], x);
      MinusOneTidy(spans, lo, hi, blocks[0]);
      InMinusAll(lo, hi, MinusOne(spans, blocks[0]), blocks[1..], x);
      assert blocks == [blocks[0]] + blocks[1..];
    }
  }

  /**
   * Subtracting a list of blocks, in any order and overlapping or not, leaves ranges in order that
   * never overlap and together are exactly the positions outside every block.
   */
  lemma SubtractAllExact(start: u32, base: nat, n: nat, blocks: seq<Span>)
    requires n <= MAX_WINDOW && forall i :: 0 <= i < |blocks| ==> Near(base, n, blocks[i])
    ensures
      var left := MinusAll([(base, base + n)], blocks);
      && SubtractAll([Number(start, (base, base + n))], Numbers(start, blocks)) == Numbers(start, left)
      && Tidy(left, base, base + n)
      && forall x: nat :: InSpans(left, x) <==> base <= x < base + n && Outside(blocks, x)
  {
    var whole := [(base, base + n)];
    SubtractAllIsMinus(start, base, n, whole, blocks);
    assert Numbers(start, whole) == [Number(start, (base, base + n))];
    forall x: nat
      ensures InSpans(MinusAll(whole, blocks), x) <==> base <= x < base + n && Outside(blocks, x)
    {
      InMinusAll(base, base + n, whole, blocks, x);
      assert base <= x < base + n ==> whole[0].0 <= x < whole[0].1;
    }
  }
}
