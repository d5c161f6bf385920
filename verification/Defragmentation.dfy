/**
 * `Fragmentation` and `Defraggler` (src/packet/mod.rs:369-508): fragments are collected per key in
 * a 65535-byte buffer; a group is complete when the lengths received add up to the end of the last
 * fragment. Whether a group has expired is an input of each step.
 */
module Defragmentation {
  import opened Basics
  import opened Fragments

  /** The fields of an IPv4 header that identify a datagram (section 3.2 of RFC 791). */
  datatype Header = Header(source: nat, destination: nat, protocol: nat, identification: nat)

  /** The key of a group. The layer kind in it is that of the header, always IPv4, so it tells nothing apart. */
  type Key = (nat, nat, nat)

  function KeyOf(h: Header): Key { (h.source, h.destination, h.identification) }

  const BUFFER: nat := U16_MAX

  /** A group of fragments as a value. */
  datatype Group = Group(buffer: seq<byte>, length: nat, total: Option<nat>) {
    predicate Ok() { |buffer| == BUFFER }

    predicate Completed() { total == Some(length) }

    /** Copies the fragment to its place; a repeated one is counted again. */
    function Add(p: Piece): Group
      requires Ok() && Fits(p)
    {
      var at := p.offset * 8;
      Group(buffer[..at] + p.payload + buffer[at + |p.payload|..],
            length + |p.payload|,
            if p.more then total else Some(at + |p.payload|))
    }

    /** The reassembled bytes. */
    function Bytes(): seq<byte>
      requires Ok()
    {
      buffer[..Min(length, BUFFER)]
    }
  }

  /** The fragment lies in the buffer; otherwise the source panics. */
  predicate Fits(p: Piece) { p.offset * 8 + |p.payload| <= BUFFER }

  function EmptyGroup(): (g: Group)
    ensures g.Ok()
  {
    Group(seq(BUFFER, _ => 0), 0, None)
  }

  /** One arriving fragment; `expired` says whether an existing group is too old. */
  datatype Arrival = Arrival(header: Header, piece: Piece, expired: bool) {
    function Key(): Key { KeyOf(header) }
  }

  type Groups = map<Key, Group>

  ghost predicate GroupsOk(groups: Groups) {
    forall k :: k in groups ==> groups[k].Ok()
  }

  /** `Defraggler::add`: the groups afterwards and the bytes of the group if it is complete. */
  function Step(groups: Groups, a: Arrival): (Groups, Option<seq<byte>>)
    requires GroupsOk(groups) && Fits(a.piece)
  {
    var group := if a.Key() in groups && !a.expired then groups[a.Key()] else EmptyGroup();
    var added := group.Add(a.piece);
    if added.Completed() then (groups - {a.Key()}, Some(added.Bytes())) else (groups[a.Key() := added], None)
  }

  /** The outputs of a run, one per arrival. */
  function Outputs(groups: Groups, arrivals: seq<Arrival>): (r: seq<Option<seq<byte>>>)
    requires GroupsOk(groups) && forall i :: 0 <= i < |arrivals| ==> Fits(arrivals[i].piece)
    ensures |r| == |arrivals|
    decreases |arrivals|
  {
    if arrivals == [] then []
    else
      var (next, out) := Step(groups, arrivals[0]);
      [out] + Outputs(next, arrivals[1..])
  }

  // ---------------------------------------------------------------------------------------------
  // Sums of lengths
  // ---------------------------------------------------------------------------------------------

  function Sum(pieces: seq<Piece>): nat {
    if pieces == [] then 0 else |pieces[0].payload| + Sum(pieces[1..])
  }

  lemma {:induction false} SumAppend(a: seq<Piece>, b: seq<Piece>)
    ensures Sum(a + b) == Sum(a) + Sum(b)
    decreases |a|
  {
    if a == [] {
      assert a + b == b;
    } else {
      assert (a + b)[1..] == a[1..] + b;
      SumAppend(a[1..], b);
    }
  }

  function Remove(s: seq<Piece>, i: nat): seq<Piece>
    requires i < |s|
  {
    s[..i] + s[i + 1..]
  }

  lemma RemoveOne(s: seq<Piece>, i: nat)
    requires i < |s|
    ensures multiset(s) == multiset(Remove(s, i)) + multiset{s[i]}
    ensures Sum(s) == Sum(Remove(s, i)) + |s[i].payload|
  {
    assert s == s[..i] + ([s[i]] + s[i + 1..]);
    SumAppend(s[..i], [s[i]] + s[i + 1..]);
    SumAppend([s[i]], s[i + 1..]);
    SumAppend(s[..i], s[i + 1..]);
    assert Sum([s[i]]) == |s[i].payload| + Sum([]);
  }

  lemma CancelOne(a: multiset<Piece>, b: multiset<Piece>, x: Piece)
    requires a + multiset{x} <= b + multiset{x}
    ensures a <= b
  {
    forall y
      ensures a[y] <= b[y]
    {
      assert (a + multiset{x})[y] <= (b + multiset{x})[y];
    }
  }

  /** A list contained in another has no larger sum, and the same only if it is as long. */
  lemma {:induction false} SumContained(a: seq<Piece>, b: seq<Piece>)
    requires multiset(a) <= multiset(b)
    requires forall i :: 0 <= i < |b| ==> 0 < |b[i].payload|
    ensures |a| <= |b| && Sum(a) <= Sum(b) && (Sum(a) == Sum(b) <==> |a| == |b|)
    decreases |a|
  {
    if a == [] {
      if b != [] { assert Sum(b) >= |b[0].payload|; }
    } else {
      var i := FindIn(a, b);
      var rest := Remove(b, i);
      RemoveOne(b, i);
      RemoveOne(a, 0);
      assert Remove(a, 0) == a[1..];
      CancelOne(multiset(a[1..]), multiset(rest), a[0]);
      SumContained(a[1..], rest);
    }
  }

  lemma FindIn(a: seq<Piece>, b: seq<Piece>) returns (i: nat)
    requires a != [] && multiset(a) <= multiset(b)
    ensures i < |b| && b[i] == a[0]
  {
    assert a[0] in multiset(a);
    assert a[0] in multiset(b);
    i :| 0 <= i < |b| && b[i] == a[0];
  }

  // ---------------------------------------------------------------------------------------------
  // One group fed with pieces of one datagram
  // ---------------------------------------------------------------------------------------------

  /** Some piece of the list covers position `x` of the datagram. */
  ghost predicate CoveredBy(pieces: seq<Piece>, x: nat) {
    exists i :: 0 <= i < |pieces| && pieces[i].offset * 8 <= x < pieces[i].offset * 8 + |pieces[i].payload|
  }

  ghost predicate HasLast(pieces: seq<Piece>) {
    exists i :: 0 <= i < |pieces| && !pieces[i].more
  }

  /** A piece of the datagram; without the more-flag it reaches the end. */
  ghost predicate PieceOf(bytes: seq<byte>, p: Piece) {
    CutFrom(bytes, p) && (!p.more ==> p.offset * 8 + |p.payload| == |bytes|)
  }

  /**
   * What a group knows after being fed `fed`, in that order, repeats included: its length is the
   * sum of theirs, its total is known exactly once a last piece arrived, and every covered byte is
   * the datagram's.
   */
  ghost predicate Holds(bytes: seq<byte>, g: Group, fed: seq<Piece>) {
    && g.Ok() && |bytes| <= BUFFER
    && g.length == Sum(fed)
    && g.total == (if HasLast(fed) then Some(|bytes|) else None)
    && forall x: nat :: CoveredBy(fed, x) ==> x < |bytes| && g.buffer[x] == bytes[x]
  }

  lemma EmptyHolds(bytes: seq<byte>)
    requires |bytes| <= BUFFER
    ensures Holds(bytes, EmptyGroup(), [])
  {
  }

  lemma CoveredAppend(fed: seq<Piece>, p: Piece, x: nat)
    ensures CoveredBy(fed + [p], x) <==> CoveredBy(fed, x) || p.offset * 8 <= x < p.offset * 8 + |p.payload|
  {
    var all := fed + [p];
    if CoveredBy(fed, x) {
      var i :| 0 <= i < |fed| && fed[i].offset * 8 <= x < fed[i].offset * 8 + |fed[i].payload|;
      assert all[i] == fed[i];
    }
    if p.offset * 8 <= x < p.offset * 8 + |p.payload| {
      assert all[|fed|] == p;
    }
  }

  lemma LastAppend(fed: seq<Piece>, p: Piece)
    ensures HasLast(fed + [p]) <==> HasLast(fed) || !p.more
  {
    var all := fed + [p];
    if HasLast(fed) {
      var i :| 0 <= i < |fed| && !fed[i].more;
      assert all[i] == fed[i];
    }
    if !p.more {
      assert all[|fed|] == p;
    }
  }

  lemma AddHolds(bytes: seq<byte>, g: Group, fed: seq<Piece>, p: Piece)
    requires Holds(bytes, g, fed) && PieceOf(bytes, p)
    ensures Fits(p) && Holds(bytes, g.Add(p), fed + [p])
  {
    SumAppend(fed, [p]);
    assert Sum([p]) == |p.payload| + Sum([]);
    LastAppend(fed, p);
    forall x: nat | CoveredBy(fed + [p], x)
      ensures x < |bytes| && g.Add(p).buffer[x] == bytes[x]
    {
      CoveredAppend(fed, p, x);
    }
  }

  // ---------------------------------------------------------------------------------------------
  // Round trip
  // ---------------------------------------------------------------------------------------------

  /** `pieces` cover the whole datagram, add up to it, and contain a last one. */
  ghost predicate Whole(bytes: seq<byte>, pieces: seq<Piece>) {
    && |bytes| <= BUFFER
    && (forall i :: 0 <= i < |pieces| ==> PieceOf(bytes, pieces[i]))
    && Sum(pieces) == |bytes| && HasLast(pieces)
    && forall x: nat :: x < |bytes| ==> CoveredBy(pieces, x)
  }

  /** The pieces the sender makes are such pieces. */
  lemma {:induction false} TileIsWhole(bytes: seq<byte>, n: nat, mss: nat, pieces: seq<Piece>)
    requires Tile(bytes, n, mss, pieces)
    ensures n + Sum(pieces) == |bytes|
    ensures forall x: nat :: n <= x < |bytes| ==> CoveredBy(pieces, x)
    decreases |pieces|
  {
    var first, rest := pieces[0], pieces[1..];
    if rest == [] {
      assert Sum(pieces) == |first.payload| + Sum([]);
    } else {
      TileTail(bytes, n, mss, pieces);
      TileIsWhole(bytes, n + |first.payload|, mss, rest);
    }
    forall x: nat | n <= x < |bytes|
      ensures CoveredBy(pieces, x)
    {
      if x < n + |first.payload| {
        assert pieces[0].offset * 8 <= x < pieces[0].offset * 8 + |pieces[0].payload|;
      } else {
        CoveredTail(pieces, x);
      }
    }
  }

  lemma CoveredTail(pieces: seq<Piece>, x: nat)
    requires pieces != [] && CoveredBy(pieces[1..], x)
    ensures CoveredBy(pieces, x)
  {
    var rest := pieces[1..];
    var i :| 0 <= i < |rest| && rest[i].offset * 8 <= x < rest[i].offset * 8 + |rest[i].payload|;
    assert pieces[i + 1] == rest[i];
  }

  lemma TilePieces(bytes: seq<byte>, mss: nat, pieces: seq<Piece>)
    requires Tile(bytes, 0, mss, pieces) && |bytes| <= BUFFER
    ensures Whole(bytes, pieces) && Distinct(pieces)
  {
    TileIsWhole(bytes, 0, mss, pieces);
    assert !pieces[|pieces| - 1].more;
    forall i, j | 0 <= i < j < |pieces|
      ensures pieces[i] != pieces[j]
    {
      TileAscends(bytes, mss, pieces, i, j);
    }
  }

  lemma {:induction false} TileAscends(bytes: seq<byte>, mss: nat, pieces: seq<Piece>, i: nat, j: nat)
    requires Tile(bytes, 0, mss, pieces) && i < j < |pieces|
    ensures pieces[i].offset < pieces[j].offset
    decreases j
  {
    assert CutFrom(bytes, pieces[j - 1]);
    assert pieces[j - 1 + 1].offset * 8 == pieces[j - 1].offset * 8 + |pieces[j - 1].payload|;
    if i < j - 1 {
      TileAscends(bytes, mss, pieces, i, j - 1);
    }
  }

  lemma TileTail(bytes: seq<byte>, n: nat, mss: nat, pieces: seq<Piece>)
    requires Tile(bytes, n, mss, pieces) && |pieces| > 1
    ensures Tile(bytes, n + |pieces[0].payload|, mss, pieces[1..])
  {
    var rest := pieces[1..];
    assert forall i :: 0 <= i < |rest| ==> rest[i] == pieces[i + 1];
  }

  /** The fragments that arrive under one key, in order. */
  function Own(arrivals: seq<Arrival>, k: Key): seq<Piece> {
    if arrivals == [] then []
    else (if arrivals[0].Key() == k then [arrivals[0].piece] else []) + Own(arrivals[1..], k)
  }

  lemma {:induction false} NoneOwn(arrivals: seq<Arrival>, k: Key)
    ensures Own(arrivals, k) == [] <==> forall i :: 0 <= i < |arrivals| ==> arrivals[i].Key() != k
    decreases |arrivals|
  {
    if arrivals != [] {
      NoneOwn(arrivals[1..], k);
      assert forall i :: 1 <= i < |arrivals| ==> arrivals[i] == arrivals[1..][i - 1];
    }
  }

  lemma SameMembers(a: seq<Piece>, b: seq<Piece>, p: Piece)
    requires multiset(a) == multiset(b) && p in a
    ensures p in b
  {
    assert p in multiset(a);
    assert p in multiset(b);
  }

  /** All pieces were fed, none twice: the group is complete and holds the datagram. */
  lemma AllFed(bytes: seq<byte>, pieces: seq<Piece>, g: Group, fed: seq<Piece>)
    requires Whole(bytes, pieces) && Holds(bytes, g, fed) && multiset(fed) == multiset(pieces)
    ensures g.Completed() && g.Bytes() == bytes
  {
    SumContained(fed, pieces);
    assert |multiset(fed)| == |fed| && |multiset(pieces)| == |pieces|;
    var i :| 0 <= i < |pieces| && !pieces[i].more;
    SameMembers(pieces, fed, pieces[i]);
    var j :| 0 <= j < |fed| && fed[j] == pieces[i];
    assert HasLast(fed);
    forall x: nat | x < |bytes|
      ensures g.buffer[x] == bytes[x]
    {
      assert CoveredBy(pieces, x);
      var m :| 0 <= m < |pieces| && pieces[m].offset * 8 <= x < pieces[m].offset * 8 + |pieces[m].payload|;
      SameMembers(pieces, fed, pieces[m]);
      var l :| 0 <= l < |fed| && fed[l] == pieces[m];
      assert CoveredBy(fed, x);
    }
  }

  /** Some piece is still missing: the group is not complete. */
  lemma NotAllFed(bytes: seq<byte>, pieces: seq<Piece>, g: Group, fed: seq<Piece>, rest: seq<Piece>)
    requires Whole(bytes, pieces) && Holds(bytes, g, fed) && multiset(fed + rest) == multiset(pieces) && rest != []
    ensures !g.Completed()
  {
    assert multiset(fed + rest) == multiset(fed) + multiset(rest);
    SumContained(fed, pieces);
    assert |multiset(fed + rest)| == |fed| + |rest| && |multiset(pieces)| == |pieces|;
  }

  /** What the defragmenter has for key `k` after `fed`. */
  ghost predicate Collecting(groups: Groups, k: Key, bytes: seq<byte>, fed: seq<Piece>) {
    && GroupsOk(groups)
    && (if fed == [] then k !in groups else k in groups && Holds(bytes, groups[k], fed))
  }

  /** The group a fragment of `k` is added to, whatever came before. */
  lemma OwnStep(groups: Groups, k: Key, bytes: seq<byte>, fed: seq<Piece>, a: Arrival)
    requires Collecting(groups, k, bytes, fed) && a.Key() == k && !a.expired && |bytes| <= BUFFER
             && PieceOf(bytes, a.piece)
    ensures Fits(a.piece)
    ensures
      var g := (if k in groups then groups[k] else EmptyGroup()).Add(a.piece);
      && Holds(bytes, g, fed + [a.piece])
      && Step(groups, a) == if g.Completed() then (groups - {k}, Some(g.Bytes())) else (groups[k := g], None)
  {
    EmptyHolds(bytes);
    AddHolds(bytes, if k in groups then groups[k] else EmptyGroup(), fed, a.piece);
  }

  /** For key `k`, the datagram comes out at its last arrival and nothing before. */
  ghost predicate ComesOutLast(outputs: seq<Option<seq<byte>>>, arrivals: seq<Arrival>, k: Key, bytes: seq<byte>) {
    && |outputs| == |arrivals|
    && forall i :: 0 <= i < |arrivals| && arrivals[i].Key() == k ==>
         outputs[i] == if Own(arrivals[i + 1..], k) == [] then Some(bytes) else None
  }

  lemma ComesOutCons(out: Option<seq<byte>>, outputs: seq<Option<seq<byte>>>, arrivals: seq<Arrival>, k: Key,
                     bytes: seq<byte>)
    requires arrivals != [] && ComesOutLast(outputs, arrivals[1..], k, bytes)
    requires arrivals[0].Key() == k ==> out == if Own(arrivals[1..], k) == [] then Some(bytes) else None
    ensures ComesOutLast([out] + outputs, arrivals, k, bytes)
  {
    var rest := arrivals[1..];
    forall i | 0 <= i < |arrivals| && arrivals[i].Key() == k
      ensures ([out] + outputs)[i] == if Own(arrivals[i + 1..], k) == [] then Some(bytes) else None
    {
      if i > 0 {
        assert rest[i - 1] == arrivals[i] && rest[i..] == arrivals[i + 1..];
      }
    }
  }

  /** A fragment of another key leaves the group alone. */
  lemma OtherStep(groups: Groups, k: Key, bytes: seq<byte>, fed: seq<Piece>, a: Arrival)
    requires Collecting(groups, k, bytes, fed) && a.Key() != k && Fits(a.piece)
    ensures Collecting(Step(groups, a).0, k, bytes, fed)
  {
  }

  /** An expired group counts for nothing: the fragment starts a new one, as if there were none. */
  lemma ExpiredStartsAnew(groups: Groups, a: Arrival)
    requires GroupsOk(groups) && Fits(a.piece)
    ensures a.expired ==> Step(groups, a) == Step(groups - {a.Key()}, a)
    ensures a.Key() !in groups ==> Step(groups, a) == Step(groups, a.(expired := !a.expired))
  {
    var k, g := a.Key(), EmptyGroup().Add(a.piece);
    assert (groups - {k}) - {k} == groups - {k};
    assert (groups - {k})[k := g] == groups[k := g];
  }

  /**
   * Round trip. The pieces of a datagram arrive in any order, none twice and none after expiry,
   * between arbitrary fragments of other keys: the datagram comes out at the last of them, whole,
   * and nothing comes out for its key before.
   */
  lemma {:induction false} RoundTrip(groups: Groups, k: Key, bytes: seq<byte>, pieces: seq<Piece>,
                                     fed: seq<Piece>, arrivals: seq<Arrival>)
    requires Whole(bytes, pieces) && Collecting(groups, k, bytes, fed)
    requires multiset(fed + Own(arrivals, k)) == multiset(pieces)
    requires forall i :: 0 <= i < |arrivals| ==>
             Fits(arrivals[i].piece) && (arrivals[i].Key() == k ==> !arrivals[i].expired)
    ensures ComesOutLast(Outputs(groups, arrivals), arrivals, k, bytes)
    decreases |arrivals|
  {
    if arrivals != [] {
      var a, rest := arrivals[0], arrivals[1..];
      var (next, out) := Step(groups, a);
      if a.Key() != k {
        OtherStep(groups, k, bytes, fed, a);
        assert Own(arrivals, k) == Own(rest, k);
        RoundTrip(next, k, bytes, pieces, fed, rest);
      } else {
        RegroupOwn(arrivals, k, fed);
        OwnArrives(groups, k, bytes, pieces, fed, a, Own(rest, k));
        if Own(rest, k) == [] {
          NoneOwn(rest, k);
        } else {
          RoundTrip(next, k, bytes, pieces, fed + [a.piece], rest);
        }
      }
      ComesOutCons(out, Outputs(next, rest), arrivals, k, bytes);
    }
  }

  lemma RegroupOwn(arrivals: seq<Arrival>, k: Key, fed: seq<Piece>)
    requires arrivals != [] && arrivals[0].Key() == k
    ensures fed + Own(arrivals, k) == (fed + [arrivals[0].piece]) + Own(arrivals[1..], k)
  {
  }

  /** A fragment of the key itself completes the group exactly if it is the last one missing. */
  lemma OwnArrives(groups: Groups, k: Key, bytes: seq<byte>, pieces: seq<Piece>, fed: seq<Piece>, a: Arrival,
                   later: seq<Piece>)
    requires Whole(bytes, pieces) && Collecting(groups, k, bytes, fed) && a.Key() == k && !a.expired && Fits(a.piece)
    requires multiset((fed + [a.piece]) + later) == multiset(pieces)
    ensures
      var (next, out) := Step(groups, a);
      && GroupsOk(next)
      && (later == [] ==> out == Some(bytes))
      && (later != [] ==> out == None && Collecting(next, k, bytes, fed + [a.piece]))
  {
    var fed' := fed + [a.piece];
    assert (fed' + later)[|fed|] == a.piece;
    SameMembers(fed' + later, pieces, a.piece);
    OwnStep(groups, k, bytes, fed, a);
    var g := (if k in groups then groups[k] else EmptyGroup()).Add(a.piece);
    if later == [] {
      assert fed' + later == fed';
      AllFed(bytes, pieces, g, fed');
    } else {
      NotAllFed(bytes, pieces, g, fed', later);
    }
  }

  /** The round trip for the pieces the sender makes. */
  lemma SentArrives(bytes: seq<byte>, mss: nat, groups: Groups, k: Key, arrivals: seq<Arrival>)
    requires UDP_HEADER <= |bytes| <= U16_MAX && Progresses(|bytes|, mss)
    requires GroupsOk(groups) && k !in groups
    requires multiset(Own(arrivals, k)) == multiset(Pieces(bytes, 0, mss))
    requires forall i :: 0 <= i < |arrivals| ==>
             Fits(arrivals[i].piece) && (arrivals[i].Key() == k ==> !arrivals[i].expired)
    ensures ComesOutLast(Outputs(groups, arrivals), arrivals, k, bytes)
  {
    var pieces := Pieces(bytes, 0, mss);
    PiecesTile(bytes, 0, mss);
    TilePieces(bytes, mss, pieces);
    assert [] + Own(arrivals, k) == Own(arrivals, k);
    RoundTrip(groups, k, bytes, pieces, [], arrivals);
  }

  /**
   * Repeats break this: when fragments of one datagram make a group complete, all of them have
   * arrived if and only if none was counted twice.
   */
  lemma CompleteMeansWholeIff(bytes: seq<byte>, pieces: seq<Piece>, g: Group, fed: seq<Piece>)
    requires Whole(bytes, pieces) && Distinct(pieces) && Holds(bytes, g, fed) && g.Completed()
    requires forall i :: 0 <= i < |fed| ==> fed[i] in pieces
    ensures (forall p :: p in pieces ==> p in fed) <==> Distinct(fed)
  {
    if forall p :: p in pieces ==> p in fed {
      forall p
        ensures multiset(pieces)[p] <= multiset(fed)[p]
      {
        DistinctCount(pieces, p);
      }
      SumContained(pieces, fed);
      SameSize(pieces, fed);
      forall p
        ensures multiset(fed)[p] <= 1
      {
        DistinctCount(pieces, p);
      }
      CountDistinct(fed);
    }
    if Distinct(fed) {
      forall p
        ensures multiset(fed)[p] <= multiset(pieces)[p]
      {
        DistinctCount(fed, p);
      }
      SumContained(fed, pieces);
      SameSize(fed, pieces);
      forall p | p in pieces
        ensures p in fed
      {
        SameMembers(pieces, fed, p);
      }
    }
  }

  /** A repeat can also keep a group from ever completing: with all pieces there, exactly a repeat does. */
  lemma AllArrivedCompletesIff(bytes: seq<byte>, pieces: seq<Piece>, g: Group, fed: seq<Piece>)
    requires Whole(bytes, pieces) && Distinct(pieces) && Holds(bytes, g, fed)
    requires forall i :: 0 <= i < |fed| ==> fed[i] in pieces
    requires forall p :: p in pieces ==> p in fed
    ensures g.Completed() <==> Distinct(fed)
  {
    var i :| 0 <= i < |pieces| && !pieces[i].more;
    assert pieces[i] in fed;
    assert HasLast(fed);
    if g.Completed() {
      CompleteMeansWholeIff(bytes, pieces, g, fed);
    }
    if Distinct(fed) {
      forall p
        ensures multiset(fed)[p] == multiset(pieces)[p]
      {
        DistinctCount(fed, p);
        DistinctCount(pieces, p);
      }
      AllFed(bytes, pieces, g, fed);
    }
  }

  /**
   * The failing side is real: the second half of a datagram, received twice, completes a group
   * whose first half was never received. The result is the datagram only if that half is zero.
   */
  lemma RepeatCompletes(first: seq<byte>, second: seq<byte>)
    requires |first| == |second| > 0 && |first| % 8 == 0 && |first + second| <= BUFFER
    ensures
      var last := Piece(|first| / 8, false, second);
      var g := EmptyGroup().Add(last).Add(last);
      && PieceOf(first + second, last)
      && g.Completed() && (g.Bytes() == first + second <==> first == seq(|first|, _ => 0))
  {
    var n := |first|;
    var last := Piece(n / 8, false, second);
    assert last.offset * 8 == n;
    var g := EmptyGroup().Add(last).Add(last);
    assert g.Bytes() == seq(n, _ => 0) + second;
    assert (first + second)[..n] == first && g.Bytes()[..n] == seq(n, _ => 0);
  }

  // ---------------------------------------------------------------------------------------------
  // Datagrams of different protocols
  // ---------------------------------------------------------------------------------------------

  /** Two datagrams share a group if and only if addresses and identification agree, whatever the protocols. */
  lemma SharesGroupIff(a: Header, b: Header)
    ensures KeyOf(a) == KeyOf(b) <==> a.(protocol := b.protocol) == b
  {
  }

  /**
   * So fragments of two datagrams that section 3.2 of RFC 791 keeps apart by their protocol are
   * put together: the beginning of one and the end of the other complete a group.
   */
  lemma ProtocolsMix(h: Header, protocol: nat, x: seq<byte>, y: seq<byte>)
    requires 0 < |x| && |x| % 8 == 0 && |x + y| <= BUFFER
    ensures
      var begin := Piece(0, true, x);
      var end := Piece(|x| / 8, false, y);
      Outputs(map[], [Arrival(h, begin, false), Arrival(h.(protocol := protocol), end, false)]) == [None, Some(x + y)]
  {
    var begin, end, k := Piece(0, true, x), Piece(|x| / 8, false, y), KeyOf(h);
    var first := EmptyGroup().Add(begin);
    var both := first.Add(end);
    var a, b := Arrival(h, begin, false), Arrival(h.(protocol := protocol), end, false);
    assert Step(map[], a) == (map[k := first], None);
    assert end.offset * 8 == |x|;
    assert both.Bytes() == x + y;
    assert Step(map[k := first], b).1 == Some(x + y);
    OutputsTwo(map[], a, b);
  }

  lemma OutputsTwo(groups: Groups, a: Arrival, b: Arrival)
    requires GroupsOk(groups) && Fits(a.piece) && Fits(b.piece)
    ensures Outputs(groups, [a, b]) == [Step(groups, a).1, Step(Step(groups, a).0, b).1]
  {
    assert [a, b][1..] == [b];
    assert [b][1..] == [];
  }

  ghost predicate Distinct(pieces: seq<Piece>) {
    forall i, j :: 0 <= i < j < |pieces| ==> pieces[i] != pieces[j]
  }

  lemma {:induction false} DistinctCount(pieces: seq<Piece>, p: Piece)
    requires Distinct(pieces)
    ensures multiset(pieces)[p] == if p in pieces then 1 else 0
    decreases |pieces|
  {
    if pieces != [] {
      assert pieces == [pieces[0]] + pieces[1..];
      DistinctCount(pieces[1..], p);
    }
  }

  lemma Twice(pieces: seq<Piece>, i: nat, j: nat)
    requires i < j < |pieces| && pieces[i] == pieces[j]
    ensures multiset(pieces)[pieces[i]] >= 2
  {
    assert pieces == pieces[..j] + pieces[j..];
    assert pieces[..j][i] in multiset(pieces[..j]);
    assert pieces[j..][0] in multiset(pieces[j..]);
  }

  lemma CountDistinct(pieces: seq<Piece>)
    requires forall p :: multiset(pieces)[p] <= 1
    ensures Distinct(pieces)
  {
    if i: nat, j: nat :| i < j < |pieces| && pieces[i] == pieces[j] {
      Twice(pieces, i, j);
    }
  }

  lemma SameSize(a: seq<Piece>, b: seq<Piece>)
    requires multiset(a) <= multiset(b) && |a| == |b|
    ensures multiset(a) == multiset(b)
  {
    var d := multiset(b) - multiset(a);
    assert multiset(b) == multiset(a) + d;
    assert |multiset(b)| == |multiset(a)| + |d|;
  }

  // ---------------------------------------------------------------------------------------------
  // The imperative defragmenter
  // ---------------------------------------------------------------------------------------------

  class Fragmentation {
    const buffer: array<byte>
    var length: nat
    var total: Option<nat>

    ghost predicate Valid()
      reads this
    {
      buffer.Length == BUFFER
    }

    ghost function View(): (g: Group)
      requires Valid()
      reads this, buffer
      ensures g.Ok()
    {
      Group(buffer[..], length, total)
    }

    constructor ()
      ensures Valid() && fresh(buffer) && View() == EmptyGroup()
    {
      buffer := new byte[BUFFER](_ => 0);
      length := 0;
      total := None;
    }

    /** Copies a fragment into place; one that does not fit makes the program panic (`ok` is false). */
    method Add(p: Piece) returns (ok: bool)
      requires Valid()
      modifies this`length, this`total, buffer
      ensures Valid() && (ok <==> Fits(p))
      ensures ok ==> View() == old(View()).Add(p)
    {
      var offset := p.offset * 8;
      if !p.more {
        total := Some(offset + |p.payload|);
      }
      if offset + |p.payload| > buffer.Length {
        return false;
      }
      CopyInto(buffer, offset, p.payload);
      length := length + |p.payload|;
      return true;
    }

    predicate IsCompleted()
      reads this
    {
      total == Some(length)
    }
  }

  /** `buffer[at..at + src.len()].copy_from_slice(src)` */
  method CopyInto(buffer: array<byte>, at: nat, src: seq<byte>)
    requires at + |src| <= buffer.Length
    modifies buffer
    ensures buffer[..] == old(buffer[..at]) + src + old(buffer[at + |src|..])
  {
    for i := 0 to |src|
      invariant forall j :: 0 <= j < buffer.Length ==>
                  buffer[j] == if at <= j < at + i then src[j - at] else old(buffer[j])
    {
      buffer[at + i] := src[i];
    }
  }

  class Defraggler {
    var frags: map<Key, Fragmentation>

    ghost function Footprint(): set<object>
      reads this
    {
      (set k | k in frags :: frags[k]) + (set k | k in frags :: frags[k].buffer)
    }

    /** Every group has its own buffer. */
    ghost predicate Valid()
      reads this, Footprint()
    {
      && (forall k :: k in frags ==> frags[k].Valid())
      && (forall j, k :: j in frags && k in frags && j != k ==>
            frags[j] != frags[k] && frags[j].buffer != frags[k].buffer)
    }

    ghost function View(): (groups: Groups)
      requires Valid()
      reads this, Footprint()
      ensures GroupsOk(groups)
    {
      map k | k in frags :: frags[k].View()
    }

    constructor ()
      ensures Valid() && View() == map[]
    {
      frags := map[];
    }

    /** Files a group of its own under a key. */
    method Put(key: Key, frag: Fragmentation)
      requires Valid() && frag.Valid() && frag !in Footprint() && frag.buffer !in Footprint()
      modifies this
      ensures Valid() && frags == old(frags)[key := frag] && View() == old(View())[key := frag.View()]
    {
      assert forall k :: k in frags ==> frags[k] in Footprint() && frags[k].buffer in Footprint();
      frags := frags[key := frag];
    }

    /** The group of a key: the live one, or a new one put in its place. */
    method GroupFor(key: Key, expired: bool) returns (frag: Fragmentation)
      requires Valid()
      modifies this
      ensures Valid() && key in frags && frags[key] == frag
      ensures fresh(Footprint() - old(Footprint()))
      ensures View() == Ready(old(View()), key, expired)
    {
      if key !in frags || expired {
        var created := new Fragmentation();
        Put(key, created);
      }
      frag := frags[key];
    }

    /** Adds to one group and leaves every other as it was. */
    method AddTo(key: Key, frag: Fragmentation, p: Piece) returns (ok: bool)
      requires Valid() && key in frags && frags[key] == frag
      modifies frag`length, frag`total, frag.buffer
      ensures Valid() && (ok <==> Fits(p))
      ensures ok ==> View() == old(View())[key := old(View())[key].Add(p)]
    {
      ok := frag.Add(p);
      assert forall k :: k in frags && k != key ==> frags[k].View() == old(frags[k].View());
    }

    /** Hands a complete group out and forgets it. */
    method Take(key: Key, frag: Fragmentation) returns (out: Option<seq<byte>>)
      requires Valid() && key in frags && frags[key] == frag
      modifies this
      ensures Valid() && (View(), out) == Taken(old(View()), key) && Footprint() <= old(Footprint())
    {
      out := None;
      assert View()[key] == frag.View();
      if frag.IsCompleted() {
        out := Some(frag.buffer[..Min(frag.length, BUFFER)]);
        frags := frags - {key};
        assert View() == old(View()) - {key};
      }
    }

    /** Adds a fragment to its group, new or existing, and hands the group out if it is complete. */
    method Add(a: Arrival) returns (ok: bool, out: Option<seq<byte>>)
      requires Valid()
      modifies this, Footprint()
      ensures Valid() && (ok <==> Fits(a.piece)) && fresh(Footprint() - old(Footprint()))
      ensures ok ==> (View(), out) == Step(old(View()), a)
    {
      ghost var groups := View();
      out := None;
      var frag := GroupFor(a.Key(), a.expired);
      ok := AddTo(a.Key(), frag, a.piece);
      if ok {
        out := Take(a.Key(), frag);
        StepIsTaken(groups, a);
      }
    }
  }

  function Ready(groups: Groups, key: Key, expired: bool): Groups {
    if key in groups && !expired then groups else groups[key := EmptyGroup()]
  }

  function Taken(groups: Groups, key: Key): (Groups, Option<seq<byte>>)
    requires key in groups && groups[key].Ok()
  {
    if groups[key].Completed() then (groups - {key}, Some(groups[key].Bytes())) else (groups, None)
  }

  lemma StepIsTaken(groups: Groups, a: Arrival)
    requires GroupsOk(groups) && Fits(a.piece)
    ensures var ready := Ready(groups, a.Key(), a.expired);
            Step(groups, a) == Taken(ready[a.Key() := ready[a.Key()].Add(a.piece)], a.Key())
  {
    var ready := Ready(groups, a.Key(), a.expired);
    var added := ready[a.Key()].Add(a.piece);
    assert ready[a.Key() := added] == groups[a.Key() := added];
    assert ready[a.Key() := added] - {a.Key()} == groups - {a.Key()};
  }
}
