/**
 * UDP fragmentation (src/lib.rs:1106-1259): a datagram that does not fit the MTU is cut into
 * pieces whose offsets are multiples of 8, with at least 8 bytes left for the last one.
 */
module Fragments {
  import opened Basics

  const IPV4_HEADER: nat := 20
  const UDP_HEADER: nat := 8
  const U16_MAX: nat := 0xFFFF

  /** An IPv4 fragment; `offset` counts units of 8 bytes. */
  datatype Piece = Piece(offset: nat, more: bool, payload: seq<byte>)

  datatype Packet =
    | Whole(identification: nat, bytes: seq<byte>)
    | Part(identification: nat, piece: Piece)

  /** What remains after an aligned piece at `n`; 0 if the rest fits. */
  function Remain(size: nat, n: nat, mss: nat): nat
    requires n <= size
  {
    if size - n <= mss then 0 else size - n - mss / 8 * 8
  }

  /** The length of the piece at `n`: aligned unless last, 8 bytes shorter if too little would remain. */
  function PieceLength(size: nat, n: nat, mss: nat): (length: nat)
    requires n <= size
    ensures length <= mss && length <= size - n
  {
    var remain := Remain(size, n, mss);
    if remain == 0 then size - n
    else
      var length := mss / 8 * 8;
      if remain < 8 then (if length >= 8 then length - 8 else 0) else length
  }

  /** The loop moves on from every aligned position that leaves at least 8 bytes. */
  predicate Progresses(size: nat, mss: nat) { 8 + size % 8 <= mss }

  lemma AlwaysProgresses(size: nat, n: nat, mss: nat)
    requires Progresses(size, mss) && n % 8 == 0 && n + 8 <= size
    ensures
      var length := PieceLength(size, n, mss);
      && 0 < length
      && (Remain(size, n, mss) > 0 ==> length % 8 == 0 && n + length + 8 <= size)
      && (Remain(size, n, mss) == 0 ==> n + length == size && length >= 8)
  {
  }

  function Pieces(bytes: seq<byte>, n: nat, mss: nat): seq<Piece>
    requires Progresses(|bytes|, mss) && n % 8 == 0 && (n + 8 <= |bytes| || n == |bytes|)
    decreases |bytes| - n
  {
    if n == |bytes| then []
    else
      AlwaysProgresses(|bytes|, n, mss);
      var length := PieceLength(|bytes|, n, mss);
      var piece := Piece(n / 8, Remain(|bytes|, n, mss) > 0, bytes[n..n + length]);
      if Remain(|bytes|, n, mss) > 0 then [piece] + Pieces(bytes, n + length, mss) else [piece]
  }

  // ---------------------------------------------------------------------------------------------
  // When the loop terminates
  // ---------------------------------------------------------------------------------------------

  /** The loop gets from position `n` to position `m`. */
  ghost predicate Reaches(size: nat, mss: nat, n: nat, m: nat)
    decreases m - n
  {
    n == m
    || (n < m && n < size && PieceLength(size, n, mss) > 0 && n + PieceLength(size, n, mss) <= m
        && Reaches(size, mss, n + PieceLength(size, n, mss), m))
  }

  lemma {:induction false} ReachedMovesOn(size: nat, mss: nat, n: nat, m: nat)
    requires Progresses(size, mss) && n % 8 == 0 && n + 8 <= size && Reaches(size, mss, n, m) && m < size
    ensures m % 8 == 0 && m + 8 <= size && PieceLength(size, m, mss) > 0
    decreases m - n
  {
    AlwaysProgresses(size, n, mss);
    if n != m {
      ReachedMovesOn(size, mss, n + PieceLength(size, n, mss), m);
    }
  }

  /** Below the bound, 8-byte pieces lead to a position where the next piece would be empty. */
  lemma {:induction false} GetsStuck(size: nat, n: nat, mss: nat)
    requires 8 <= mss < 8 + size % 8 && n % 8 == 0 && n + 8 + size % 8 <= size
    ensures Reaches(size, mss, n, size - 8 - size % 8)
    decreases size - n
  {
    var stuck := size - 8 - size % 8;
    if n != stuck {
      assert n + 16 + size % 8 <= size;
      assert PieceLength(size, n, mss) == 8;
      GetsStuck(size, n + 8, mss);
    }
  }

  /**
   * Termination, exactly. For a datagram that needs fragmenting, no reachable position is one the
   * loop stays at forever if and only if `mss >= 8 + size % 8`; so an MTU of 36 always suffices and
   * one below 28 never does.
   */
  lemma TerminatesIff(size: nat, mss: nat)
    requires size > mss && size >= UDP_HEADER
    ensures (forall m: nat :: Reaches(size, mss, 0, m) && m < size ==> PieceLength(size, m, mss) > 0)
       <==> Progresses(size, mss)
    ensures mss + IPV4_HEADER >= 36 ==> Progresses(size, mss)
    ensures mss + IPV4_HEADER < 28 ==> !Progresses(size, mss)
  {
    if Progresses(size, mss) {
      forall m: nat | Reaches(size, mss, 0, m) && m < size
        ensures PieceLength(size, m, mss) > 0
      {
        ReachedMovesOn(size, mss, 0, m);
      }
    } else if mss < 8 {
      assert Reaches(size, mss, 0, 0) && PieceLength(size, 0, mss) == 0;
    } else {
      var stuck := size - 8 - size % 8;
      GetsStuck(size, 0, mss);
      assert PieceLength(size, stuck, mss) == 0;
    }
  }

  // ---------------------------------------------------------------------------------------------
  // What the pieces are
  // ---------------------------------------------------------------------------------------------

  /** The piece is a slice of the datagram at its own offset. */
  ghost predicate CutFrom(bytes: seq<byte>, p: Piece) {
    && 0 < |p.payload| && p.offset * 8 + |p.payload| <= |bytes|
    && p.payload == bytes[p.offset * 8..p.offset * 8 + |p.payload|]
  }

  /**
   * The pieces from `n` on: slices that follow each other without gap or overlap up to the end, fit
   * the MTU, are multiples of 8 long except the last, of which the last alone says so and has at
   * least 8 bytes.
   */
  ghost predicate Tile(bytes: seq<byte>, n: nat, mss: nat, pieces: seq<Piece>) {
    && pieces != [] && pieces[0].offset * 8 == n
    && (forall i :: 0 <= i < |pieces| ==> CutFrom(bytes, pieces[i]) && |pieces[i].payload| <= mss)
    && (forall i :: 0 <= i < |pieces| ==> (pieces[i].more <==> i < |pieces| - 1))
    && (forall i :: 0 <= i < |pieces| - 1 ==>
          |pieces[i].payload| % 8 == 0 && pieces[i + 1].offset * 8 == pieces[i].offset * 8 + |pieces[i].payload|)
    && |pieces[|pieces| - 1].payload| >= 8
    && pieces[|pieces| - 1].offset * 8 + |pieces[|pieces| - 1].payload| == |bytes|
  }

  lemma TileCons(bytes: seq<byte>, n: nat, mss: nat, piece: Piece, rest: seq<Piece>)
    requires CutFrom(bytes, piece) && piece.more && |piece.payload| % 8 == 0 && |piece.payload| <= mss
    requires piece.offset * 8 == n && Tile(bytes, n + |piece.payload|, mss, rest)
    ensures Tile(bytes, n, mss, [piece] + rest)
  {
    var pieces := [piece] + rest;
    assert forall i :: 1 <= i < |pieces| ==> pieces[i] == rest[i - 1];
  }

  lemma PiecesUnfold(bytes: seq<byte>, n: nat, mss: nat)
    requires Progresses(|bytes|, mss) && n % 8 == 0 && n + 8 <= |bytes|
    ensures
      var length := PieceLength(|bytes|, n, mss);
      var remain := Remain(|bytes|, n, mss);
      var piece := Piece(n / 8, remain > 0, bytes[n..n + length]);
      && piece.offset * 8 == n && CutFrom(bytes, piece)
      && (remain > 0 ==> length % 8 == 0 && (n + length) % 8 == 0 && n + length + 8 <= |bytes|)
      && (remain == 0 ==> n + length == |bytes| && length >= 8)
      && Pieces(bytes, n, mss) == [piece] + (if remain > 0 then Pieces(bytes, n + length, mss) else [])
  {
    AlwaysProgresses(|bytes|, n, mss);
  }

  lemma {:induction false} PiecesTile(bytes: seq<byte>, n: nat, mss: nat)
    requires Progresses(|bytes|, mss) && n % 8 == 0 && n + 8 <= |bytes|
    ensures Tile(bytes, n, mss, Pieces(bytes, n, mss))
    decreases |bytes| - n
  {
    var piece := FirstPiece(bytes, n, mss);
    if piece.more {
      PiecesTile(bytes, n + |piece.payload|, mss);
      TileCons(bytes, n, mss, piece, Pieces(bytes, n + |piece.payload|, mss));
    } else {
      TileLast(bytes, n, mss, piece);
    }
  }

  lemma FirstPiece(bytes: seq<byte>, n: nat, mss: nat) returns (piece: Piece)
    requires Progresses(|bytes|, mss) && n % 8 == 0 && n + 8 <= |bytes|
    ensures piece.offset * 8 == n && CutFrom(bytes, piece) && |piece.payload| <= mss
    ensures
      var next := n + |piece.payload|;
      if piece.more then
        && |piece.payload| % 8 == 0 && next % 8 == 0 && next + 8 <= |bytes|
        && Pieces(bytes, n, mss) == [piece] + Pieces(bytes, next, mss)
      else
        next == |bytes| && |piece.payload| >= 8 && Pieces(bytes, n, mss) == [piece]
  {
    PiecesUnfold(bytes, n, mss);
    var length := PieceLength(|bytes|, n, mss);
    piece := Piece(n / 8, Remain(|bytes|, n, mss) > 0, bytes[n..n + length]);
  }

  lemma TileLast(bytes: seq<byte>, n: nat, mss: nat, piece: Piece)
    requires CutFrom(bytes, piece) && !piece.more && 8 <= |piece.payload| <= mss
    requires piece.offset * 8 == n && n + |piece.payload| == |bytes|
    ensures Tile(bytes, n, mss, [piece])
  {
    assert [piece][0] == piece;
  }

  // ---------------------------------------------------------------------------------------------
  // The sending loop
  // ---------------------------------------------------------------------------------------------

  /** `TooBig` is a serialization error, `Fault` a panic. */
  datatype SendResult = Sent | TooBig | Fault

  /** The IPv4 side of `send_udp` towards one source: its identification and the packets sent. */
  class UdpSender {
    var identification: nat
    var sent: seq<Packet>

    ghost predicate Valid()
      reads this
    {
      identification <= U16_MAX
    }

    constructor ()
      ensures Valid() && identification == 0 && sent == []
    {
      identification := 0;
      sent := [];
    }

    method IncreaseIdentification()
      requires Valid()
      modifies this`identification
      ensures Valid() && identification == (old(identification) + 1) % (U16_MAX + 1)
    {
      identification := if identification + 1 <= U16_MAX then identification + 1 else 0;
    }

    /**
     * Sends a datagram, `header` being its serialized UDP header. All pieces carry one
     * identification, which is used up by the last; what does not fit 16-bit lengths is refused.
     */
    method SendUdp(header: seq<byte>, payload: seq<byte>, mtu: nat) returns (r: SendResult)
      requires Valid() && |header| == UDP_HEADER
      requires
        || mtu < IPV4_HEADER
        || |header + payload| + IPV4_HEADER <= mtu
        || |header + payload| > U16_MAX
        || Progresses(|header + payload|, mtu - IPV4_HEADER)
      modifies this
      ensures Valid()
      ensures
        var bytes := header + payload;
        var id := old(identification);
        if mtu < IPV4_HEADER then
          r == Fault && sent == old(sent) && identification == id
        else if |bytes| <= mtu - IPV4_HEADER then
          if TooLong(|bytes|) then r == TooBig && sent == old(sent) && identification == id
          else r == Sent && sent == old(sent) + [Whole(id, bytes)] && identification == (id + 1) % (U16_MAX + 1)
        else if |bytes| > U16_MAX then
          r == TooBig && sent == old(sent) && identification == id
        else
          var (packets, ok) := Packets(id, Pieces(bytes, 0, mtu - IPV4_HEADER));
          && r == (if ok then Sent else TooBig) && sent == old(sent) + packets
          && identification == if ok then (id + 1) % (U16_MAX + 1) else id
    {
      var size := |header| + |payload|;
      if mtu < IPV4_HEADER {
        return Fault;
      }
      var mss := mtu - IPV4_HEADER;
      if size <= mss {
        if IPV4_HEADER + size > U16_MAX {
          return TooBig;
        }
        sent := sent + [Whole(identification, header + payload)];
        IncreaseIdentification();
        return Sent;
      }
      if size > U16_MAX {
        return TooBig;
      }
      var ok := SendParts(header + payload, mss);
      return if ok then Sent else TooBig;
    }

    /** The fragmentation loop; a piece that cannot be serialized ends it. */
    method SendParts(buffer: seq<byte>, mss: nat) returns (ok: bool)
      requires Valid() && Progresses(|buffer|, mss) && UDP_HEADER <= |buffer|
      modifies this
      ensures Valid() && identification == if ok then (old(identification) + 1) % (U16_MAX + 1) else old(identification)
      ensures
        var (packets, all) := Packets(old(identification), Pieces(buffer, 0, mss));
        sent == old(sent) + packets && ok == all
    {
      ghost var id := identification;
      ghost var target := sent + Packets(id, Pieces(buffer, 0, mss)).0;
      ghost var all := Packets(id, Pieces(buffer, 0, mss)).1;
      var n := 0;
      while n < |buffer|
        invariant Valid() && SentUpTo(id, buffer, mss, n, sent, identification, target, all)
        decreases |buffer| - n
      {
        SentNext(id, buffer, mss, n, sent, target, all);
        var length, more := SendPart(buffer, n, mss);
        if !more {
          return false;
        }
        n := n + length;
      }
      return true;
    }

    /** One iteration: chooses the length, sends the piece, and closes the datagram after the last. */
    method SendPart(buffer: seq<byte>, n: nat, mss: nat) returns (length: nat, ok: bool)
      requires Valid() && Progresses(|buffer|, mss) && n % 8 == 0 && n + 8 <= |buffer|
      modifies this
      ensures Valid() && length == PieceLength(|buffer|, n, mss) && ok == !TooLong(length)
      ensures
        var last := Remain(|buffer|, n, mss) == 0;
        if ok then
          && sent == old(sent) + [Part(old(identification), Piece(n / 8, !last, buffer[n..n + length]))]
          && identification == if last then (old(identification) + 1) % (U16_MAX + 1) else old(identification)
        else sent == old(sent) && identification == old(identification)
    {
      var size := |buffer|;
      length := Min(size - n, mss);
      var remain := size - n - length;
      if remain > 0 {
        length := length / 8 * 8;
        remain := size - n - length;
      }
      AlwaysProgresses(size, n, mss);
      if remain > 0 && remain < 8 {
        length := length - 8;
      }
      if IPV4_HEADER + length > U16_MAX {
        return length, false;
      }
      if remain > 0 {
        sent := sent + [Part(identification, Piece(n / 8, true, buffer[n..n + length]))];
      } else {
        sent := sent + [Part(identification, Piece(n / 8, false, buffer[n..n + length]))];
        IncreaseIdentification();
      }
      return length, true;
    }
  }

  /** The IPv4 packet around `length` bytes does not fit a 16-bit length. */
  predicate TooLong(length: nat) { IPV4_HEADER + length > U16_MAX }

  /** The packets for the pieces, up to one that cannot be serialized, and whether there is none. */
  function Packets(identification: nat, pieces: seq<Piece>): (seq<Packet>, bool) {
    if pieces == [] then ([], true)
    else if TooLong(|pieces[0].payload|) then ([], false)
    else
      var (rest, ok) := Packets(identification, pieces[1..]);
      ([Part(identification, pieces[0])] + rest, ok)
  }

  /** Within an MTU of 65535 all pieces are sent, in order and under one identification. */
  lemma {:induction false} PacketsAreParts(identification: nat, pieces: seq<Piece>, mss: nat)
    requires mss + IPV4_HEADER <= U16_MAX && forall i :: 0 <= i < |pieces| ==> |pieces[i].payload| <= mss
    ensures
      var (packets, ok) := Packets(identification, pieces);
      && ok && |packets| == |pieces|
      && forall i :: 0 <= i < |pieces| ==> packets[i] == Part(identification, pieces[i])
    decreases |pieces|
  {
    if pieces != [] {
      PacketsAreParts(identification, pieces[1..], mss);
    }
  }

  /** All pieces are sent exactly if each fits an IPv4 packet of 65535 bytes; else those before the first too long. */
  lemma {:induction false} PacketsIff(identification: nat, pieces: seq<Piece>)
    ensures
      var (packets, ok) := Packets(identification, pieces);
      && (ok <==> forall i :: 0 <= i < |pieces| ==> 20 + |pieces[i].payload| <= 65535)
      && |packets| <= |pieces| && (!ok ==> |packets| < |pieces| && 20 + |pieces[|packets|].payload| > 65535)
      && forall i :: 0 <= i < |packets| ==> packets[i] == Part(identification, pieces[i])
    decreases |pieces|
  {
    if pieces != [] && !TooLong(|pieces[0].payload|) {
      PacketsIff(identification, pieces[1..]);
    }
  }

  /** After `n` bytes, what is sent and what is left make up `target`; `all` says whether nothing fails. */
  ghost predicate SentUpTo(id: nat, bytes: seq<byte>, mss: nat, n: nat, sent: seq<Packet>, identification: nat,
                           target: seq<Packet>, all: bool)
    requires Progresses(|bytes|, mss)
  {
    if n < |bytes| then
      && n % 8 == 0 && n + 8 <= |bytes| && identification == id
      && sent + Packets(id, Pieces(bytes, n, mss)).0 == target && Packets(id, Pieces(bytes, n, mss)).1 == all
    else
      n == |bytes| && identification == (id + 1) % (U16_MAX + 1) && sent == target && all
  }

  lemma SentNext(id: nat, bytes: seq<byte>, mss: nat, n: nat, sent: seq<Packet>, target: seq<Packet>, all: bool)
    requires Progresses(|bytes|, mss) && n < |bytes| && SentUpTo(id, bytes, mss, n, sent, id, target, all)
    ensures
      var length := PieceLength(|bytes|, n, mss);
      var last := Remain(|bytes|, n, mss) == 0;
      if TooLong(length) then sent == target && !all
      else
        && 0 < length <= |bytes| - n
        && SentUpTo(id, bytes, mss, n + length, sent + [Part(id, Piece(n / 8, !last, bytes[n..n + length]))],
                    if last then (id + 1) % (U16_MAX + 1) else id, target, all)
  {
    PacketsUnfold(id, bytes, n, mss);
    AlwaysProgresses(|bytes|, n, mss);
    var length := PieceLength(|bytes|, n, mss);
    var part := Part(id, Piece(n / 8, Remain(|bytes|, n, mss) > 0, bytes[n..n + length]));
    if TooLong(length) {
      assert sent + [] == sent;
    } else if Remain(|bytes|, n, mss) > 0 {
      var rest := Packets(id, Pieces(bytes, n + length, mss)).0;
      assert sent + ([part] + rest) == (sent + [part]) + rest;
    }
  }

  lemma PacketsUnfold(id: nat, bytes: seq<byte>, n: nat, mss: nat)
    requires Progresses(|bytes|, mss) && n % 8 == 0 && n + 8 <= |bytes|
    ensures
      var length := PieceLength(|bytes|, n, mss);
      var remain := Remain(|bytes|, n, mss);
      var (packets, ok) := Packets(id, Pieces(bytes, n, mss));
      && (remain > 0 ==> (n + length) % 8 == 0 && n + length + 8 <= |bytes|)
      && (remain == 0 ==> n + length == |bytes|)
      && if TooLong(length) then packets == [] && !ok
         else
           var (rest, okRest) := if remain > 0 then Packets(id, Pieces(bytes, n + length, mss)) else ([], true);
           packets == [Part(id, Piece(n / 8, remain > 0, bytes[n..n + length]))] + rest && ok == okRest
  {
    PiecesUnfold(bytes, n, mss);
    var pieces := Pieces(bytes, n, mss);
    var next := n + PieceLength(|bytes|, n, mss);
    assert pieces[1..] == if Remain(|bytes|, n, mss) > 0 then Pieces(bytes, next, mss) else [];
  }
}
