/** struct packet_buf (avr/frame_async.c): a 64-byte data ring with an 8-entry
    ring of packet boundaries, as a value, and how the packets it holds follow
    from its indices. */
module PacketBuf {
  import opened Crc

  const B_SZ: nat := 64
  const P_SZ: nat := 8

  // The macros of penny/circ_buf.h. The header is not part of this model; they
  // are the usual ones for a size that is a power of two.

  /** `n & (size - 1)`, for an `n` that is at most one turn too far. */
  function Mask(n: nat, size: nat): (r: nat)
    requires n < 2 * size
    ensures r < size
  {
    if n < size then n else n - size
  }

  function CircNext(i: nat, size: nat): (r: nat)
    requires i < size
    ensures r < size
  {
    Mask(i + 1, size)
  }

  /** Elements between `tail` and `head`: `(head - tail) & (size - 1)`. */
  function CircCnt(head: nat, tail: nat, size: nat): (r: nat)
    requires head < size && tail < size
    ensures r < size
  {
    Mask(head + size - tail, size)
  }

  /** Free elements; one is always kept free. */
  function CircSpace(head: nat, tail: nat, size: nat): (r: nat)
    requires head < size && tail < size
    ensures r == size - 1 - CircCnt(head, tail, size)
  {
    CircCnt(tail, CircNext(head, size), size)
  }

  function Min(a: nat, b: nat): nat { if a < b then a else b }

  function CircCntToEnd(head: nat, tail: nat, size: nat): (r: nat)
    requires head < size && tail < size
    ensures r == Min(CircCnt(head, tail, size), size - tail)
  {
    var end := size - tail;
    var n := Mask(head + end, size);
    if n < end then n else end
  }

  function CircSpaceToEnd(head: nat, tail: nat, size: nat): (r: nat)
    requires head < size && tail < size
    ensures r == Min(CircSpace(head, tail, size), size - head)
  {
    var end := size - 1 - head;
    var n := Mask(end + tail, size);
    if n <= end then n else end + 1
  }

  // ------------------------------------------------------------------
  // The ring and its packets
  // ------------------------------------------------------------------

  datatype Ring = Ring(buf: seq<byte>, pIdx: seq<nat>, head: nat, tail: nat)

  predicate InRange(r: Ring) {
    && |r.buf| == B_SZ && |r.pIdx| == P_SZ
    && r.head < P_SZ && r.tail < P_SZ
    && forall k :: 0 <= k < P_SZ ==> r.pIdx[k] < B_SZ
  }

  /** Packets queued. */
  function Count(r: Ring): (n: nat)
    requires InRange(r)
    ensures n < P_SZ
  {
    CircCnt(r.head, r.tail, P_SZ)
  }

  /** The slot `k` places after the tail, and the boundary in it. */
  function Slot(r: Ring, k: nat): nat
    requires InRange(r) && k <= P_SZ
  {
    Mask(r.tail + k, P_SZ)
  }

  function Bound(r: Ring, k: nat): (b: nat)
    requires InRange(r) && k <= P_SZ
    ensures b < B_SZ
  {
    r.pIdx[Slot(r, k)]
  }

  /** How far that boundary is from the first unread byte. */
  function Off(r: Ring, k: nat): (d: nat)
    requires InRange(r) && k <= P_SZ
    ensures d < B_SZ
    ensures k == 0 ==> d == 0
  {
    CircCnt(Bound(r, k), Bound(r, 0), B_SZ)
  }

  /** The byte `j` places after the first unread byte. */
  function At(r: Ring, j: nat): byte
    requires InRange(r) && j < B_SZ
  {
    r.buf[Mask(Bound(r, 0) + j, B_SZ)]
  }

  /** Boundaries 0 to `m` are in cyclic order. */
  predicate Ordered(r: Ring, m: nat)
    requires InRange(r) && m <= P_SZ
  {
    forall i, j :: 0 <= i <= j <= m ==> Off(r, i) <= Off(r, j)
  }

  /** The bytes from the `a`-th to before the `b`-th. */
  function Span(r: Ring, a: nat, b: nat): (s: seq<byte>)
    requires InRange(r) && a <= b < B_SZ
    ensures |s| == b - a
  {
    seq(b - a, j requires 0 <= j < b - a => At(r, a + j))
  }

  function Packet(r: Ring, k: nat): (p: seq<byte>)
    requires InRange(r) && k < P_SZ && Off(r, k) <= Off(r, k + 1)
    ensures |p| == Off(r, k + 1) - Off(r, k)
  {
    Span(r, Off(r, k), Off(r, k + 1))
  }

  /** A ring whose published packets are in order. The slot after the head is left
      to the producer, so at most six packets are queued. */
  predicate Ok(r: Ring) {
    InRange(r) && Count(r) <= 6 && Ordered(r, Count(r))
  }

  function Packets(r: Ring): (q: seq<seq<byte>>)
    requires Ok(r)
    ensures |q| == Count(r)
  {
    seq(Count(r), k requires 0 <= k < Count(r) => Packet(r, k))
  }

  /** Bytes of published packets that are still in the ring. */
  function Used(r: Ring): (n: nat)
    requires Ok(r)
    ensures n < B_SZ
  {
    Off(r, Count(r))
  }

  /** The bytes of the packet the producer has not published yet. */
  predicate OpenOk(r: Ring) {
    Ok(r) && Ordered(r, Count(r) + 1)
  }

  function OpenBytes(r: Ring): (s: seq<byte>)
    requires OpenOk(r)
    ensures |s| == Off(r, Count(r) + 1) - Used(r)
  {
    Span(r, Used(r), Off(r, Count(r) + 1))
  }

  // ------------------------------------------------------------------
  // What a change of the ring does to its packets
  // ------------------------------------------------------------------

  lemma SlotOfHead(r: Ring)
    requires InRange(r)
    ensures Slot(r, 0) == r.tail && Slot(r, Count(r)) == r.head
    ensures Slot(r, Count(r) + 1) == CircNext(r.head, P_SZ)
    ensures forall i, k :: 0 <= i < k < P_SZ ==> Slot(r, i) != Slot(r, k)
  {}

  /** Equal bounds and equal bytes up to the last bound make equal packets. */
  lemma SamePackets(r: Ring, s: Ring)
    requires Ok(r) && InRange(s) && Count(s) == Count(r)
    requires forall k :: 0 <= k <= Count(r) ==> Off(s, k) == Off(r, k)
    requires forall j :: 0 <= j < Used(r) ==> At(s, j) == At(r, j)
    ensures Ok(s) && Packets(s) == Packets(r) && Used(s) == Used(r)
  {
    hide At, Off, Count;
    assert Ok(s);
    forall k | 0 <= k < Count(r)
      ensures Packet(s, k) == Packet(r, k)
    {
      assert Off(r, k + 1) <= Off(r, Count(r));
    }
  }

  /** The producer adds a byte behind the open packet. */
  function Store(r: Ring, d: byte): Ring
    requires InRange(r)
  {
    var ih1 := CircNext(r.head, P_SZ);
    var b := r.pIdx[ih1];
    r.(buf := r.buf[b := d], pIdx := r.pIdx[ih1 := CircNext(b, B_SZ)])
  }

  lemma StoreKeeps(r: Ring, d: byte)
    requires OpenOk(r) && Off(r, Count(r) + 1) < B_SZ - 1
    ensures var s := Store(r, d);
            && InRange(s) && Count(s) == Count(r)
            && (forall k :: 0 <= k <= Count(r) ==> Off(s, k) == Off(r, k))
            && Off(s, Count(r) + 1) == Off(r, Count(r) + 1) + 1
            && (forall j :: 0 <= j < Off(r, Count(r) + 1) ==> At(s, j) == At(r, j))
            && At(s, Off(r, Count(r) + 1)) == d
  {
    SlotOfHead(r);
    var s := Store(r, d);
    assert forall k :: 0 <= k <= Count(r) ==> Bound(s, k) == Bound(r, k);
  }

  lemma StoreAppends(r: Ring, d: byte)
    requires OpenOk(r) && Off(r, Count(r) + 1) < B_SZ - 1
    ensures var s := Store(r, d);
            OpenOk(s) && Packets(s) == Packets(r) && OpenBytes(s) == OpenBytes(r) + [d]
  {
    hide At, Off, Count, Store;
    var s := Store(r, d);
    StoreKeeps(r, d);
    SamePackets(r, s);
    assert OpenOk(s);
  }

  /** The producer gives up the open packet. */
  function Rewind(r: Ring): Ring
    requires InRange(r)
  {
    r.(pIdx := r.pIdx[CircNext(r.head, P_SZ) := r.pIdx[r.head]])
  }

  lemma RewindEmpties(r: Ring)
    requires Ok(r)
    ensures var s := Rewind(r);
            OpenOk(s) && Packets(s) == Packets(r) && OpenBytes(s) == []
  {
    var s := Rewind(r);
    RewindKeeps(r);
    hide At, Off, Count, Rewind;
    SamePackets(r, s);
  }

  lemma RewindKeeps(r: Ring)
    requires Ok(r)
    ensures var s := Rewind(r);
            && InRange(s) && Count(s) == Count(r)
            && (forall k :: 0 <= k <= Count(r) ==> Off(s, k) == Off(r, k))
            && Off(s, Count(r) + 1) == Off(r, Count(r))
            && (forall j :: 0 <= j < B_SZ ==> At(s, j) == At(r, j))
  {
    SlotOfHead(r);
    var s := Rewind(r);
    assert forall k :: 0 <= k <= Count(r) ==> Bound(s, k) == Bound(r, k);
  }

  /** The producer takes back the last `n` bytes of the open packet. */
  function Shorten(r: Ring, n: nat): Ring
    requires InRange(r) && n < B_SZ
  {
    var ih1 := CircNext(r.head, P_SZ);
    r.(pIdx := r.pIdx[ih1 := Mask(r.pIdx[ih1] + B_SZ - n, B_SZ)])
  }

  lemma ShortenKeeps(r: Ring, n: nat)
    requires OpenOk(r) && n <= |OpenBytes(r)|
    ensures var s := Shorten(r, n);
            && InRange(s) && Count(s) == Count(r)
            && (forall k :: 0 <= k <= Count(r) ==> Off(s, k) == Off(r, k))
            && Off(s, Count(r) + 1) == Off(r, Count(r) + 1) - n
            && (forall j :: 0 <= j < B_SZ ==> At(s, j) == At(r, j))
  {
    SlotOfHead(r);
    var s := Shorten(r, n);
    assert forall k :: 0 <= k <= Count(r) ==> Bound(s, k) == Bound(r, k);
  }

  lemma ShortenTrims(r: Ring, n: nat)
    requires OpenOk(r) && n <= |OpenBytes(r)|
    ensures var s := Shorten(r, n);
            OpenOk(s) && Packets(s) == Packets(r) && OpenBytes(s) == OpenBytes(r)[..|OpenBytes(r)| - n]
  {
    var s := Shorten(r, n);
    ShortenKeeps(r, n);
    hide At, Off, Count, Shorten;
    SamePackets(r, s);
  }

  /** The producer publishes the open packet and seeds the boundary of the next. */
  function Publish(r: Ring): Ring
    requires InRange(r)
  {
    var ih1 := CircNext(r.head, P_SZ);
    r.(pIdx := r.pIdx[CircNext(ih1, P_SZ) := r.pIdx[ih1]], head := ih1)
  }

  lemma PublishKeeps(r: Ring)
    requires OpenOk(r) && Count(r) <= 5
    ensures var s := Publish(r);
            && InRange(s) && Count(s) == Count(r) + 1
            && (forall k :: 0 <= k <= Count(r) + 1 ==> Off(s, k) == Off(r, k))
            && Off(s, Count(r) + 2) == Off(r, Count(r) + 1)
            && (forall j :: 0 <= j < B_SZ ==> At(s, j) == At(r, j))
  {
    SlotOfHead(r);
    var s := Publish(r);
    assert forall k :: 0 <= k <= Count(r) + 1 ==> Bound(s, k) == Bound(r, k);
  }

  lemma PublishOk(r: Ring)
    requires OpenOk(r) && Count(r) <= 5
    ensures var s := Publish(r); OpenOk(s) && Count(s) == Count(r) + 1 && OpenBytes(s) == []
  {
    PublishKeeps(r);
    hide At, Off, Count, Publish;
    assert Ok(Publish(r));
  }

  lemma PublishPacket(r: Ring, k: nat)
    requires OpenOk(r) && Count(r) <= 5 && k <= Count(r) && Ok(Publish(r)) && Count(Publish(r)) == Count(r) + 1
    ensures Packet(Publish(r), k) == if k < Count(r) then Packet(r, k) else OpenBytes(r)
  {
    PublishKeeps(r);
    hide At, Off, Count, Publish, Ok;
    assert Off(r, k) <= Off(r, k + 1);
    hide Ordered, Span;
    SpanShift(r, Publish(r), Off(r, k), Off(r, k + 1), 0);
  }

  lemma PublishAppends(r: Ring)
    requires OpenOk(r) && Count(r) <= 5
    ensures var s := Publish(r);
            OpenOk(s) && Packets(s) == Packets(r) + [OpenBytes(r)] && OpenBytes(s) == []
  {
    hide At, Off, Count, Publish, Ordered, Packet, OpenBytes;
    PublishOk(r);
    forall k | 0 <= k <= Count(r)
      ensures Packets(Publish(r))[k] == (Packets(r) + [OpenBytes(r)])[k]
    {
      PublishPacket(r, k);
    }
  }

  /** The consumer moves on by `n` bytes in the first packet. */
  function Advance(r: Ring, n: nat): Ring
    requires InRange(r) && n < B_SZ
  {
    r.(pIdx := r.pIdx[r.tail := Mask(r.pIdx[r.tail] + n, B_SZ)])
  }

  lemma AdvanceKeeps(r: Ring, n: nat)
    requires Ok(r) && Count(r) != 0 && n <= Off(r, 1)
    ensures var s := Advance(r, n);
            && InRange(s) && Count(s) == Count(r)
            && (forall k :: 1 <= k <= Count(r) ==> Off(s, k) == Off(r, k) - n)
            && (Off(r, Count(r) + 1) >= n ==> Off(s, Count(r) + 1) == Off(r, Count(r) + 1) - n)
            && (forall j :: 0 <= j < B_SZ - n ==> At(s, j) == At(r, j + n))
  {
    SlotOfHead(r);
    var s := Advance(r, n);
    assert forall k :: 1 <= k <= Count(r) + 1 ==> Bound(s, k) == Bound(r, k);
    forall k | 1 <= k <= Count(r)
      ensures Off(r, k) >= n && Off(s, k) == Off(r, k) - n
    {
      assert Off(r, 1) <= Off(r, k);
    }
  }

  lemma AdvanceOk(r: Ring, n: nat)
    requires Ok(r) && Count(r) != 0 && n <= Off(r, 1)
    ensures var s := Advance(r, n); Ok(s) && Used(s) == Used(r) - n && Count(s) == Count(r)
  {
    AdvanceKeeps(r, n);
    hide At, Off, Count, Advance;
    assert Off(r, 1) <= Off(r, Count(r));
  }

  lemma AdvancePacket(r: Ring, n: nat, k: nat)
    requires Ok(r) && k < Count(r) && n <= Off(r, 1) && Ok(Advance(r, n)) && Count(Advance(r, n)) == Count(r)
    ensures Packet(Advance(r, n), k) == if k == 0 then Packet(r, 0)[n..] else Packet(r, k)
  {
    AdvanceKeeps(r, n);
    hide At, Off, Count, Advance, Ok;
    if k == 0 {
      assert Packet(Advance(r, n), 0) == Packet(r, 0)[n..];
    } else {
      assert Off(r, 1) <= Off(r, k);
      assert Packet(Advance(r, n), k) == Packet(r, k);
    }
  }

  lemma AdvanceOpen(r: Ring, n: nat)
    requires OpenOk(r) && Count(r) != 0 && n <= Off(r, 1)
    ensures var s := Advance(r, n); OpenOk(s) && OpenBytes(s) == OpenBytes(r)
  {
    AdvanceOk(r, n);
    AdvanceKeeps(r, n);
    hide At, Off, Count, Advance;
    assert Off(r, 1) <= Off(r, Count(r)) <= Off(r, Count(r) + 1);
  }

  lemma AdvanceReads(r: Ring, n: nat)
    requires Ok(r) && Count(r) != 0 && n <= |Packets(r)[0]|
    ensures var s := Advance(r, n);
            && Ok(s) && Packets(s) == [Packets(r)[0][n..]] + Packets(r)[1..] && Used(s) == Used(r) - n
            && (OpenOk(r) ==> OpenOk(s) && OpenBytes(s) == OpenBytes(r))
  {
    hide At, Off, Count, Advance, Ordered, Packet;
    AdvanceOk(r, n);
    if OpenOk(r) {
      AdvanceOpen(r, n);
    }
    forall k | 0 <= k < Count(r)
      ensures Packets(Advance(r, n))[k] == ([Packets(r)[0][n..]] + Packets(r)[1..])[k]
    {
      AdvancePacket(r, n, k);
    }
  }

  /** The consumer leaves the first packet. */
  function Leave(r: Ring): Ring
    requires InRange(r)
  {
    r.(tail := CircNext(r.tail, P_SZ))
  }

  lemma LeaveKeeps(r: Ring)
    requires Ok(r) && Count(r) != 0
    ensures var s := Leave(r);
            && InRange(s) && Count(s) == Count(r) - 1
            && (forall k :: 0 <= k < Count(r) ==> Off(s, k) == Off(r, k + 1) - Off(r, 1))
            && (Off(r, Count(r) + 1) >= Off(r, 1) ==> Off(s, Count(r)) == Off(r, Count(r) + 1) - Off(r, 1))
            && (forall j :: 0 <= j < B_SZ - Off(r, 1) ==> At(s, j) == At(r, j + Off(r, 1)))
  {
    SlotOfHead(r);
    var s := Leave(r);
    assert forall k :: 0 <= k <= Count(r) ==> Bound(s, k) == Bound(r, k + 1);
    forall k | 0 <= k < Count(r)
      ensures Off(r, k + 1) >= Off(r, 1) && Off(s, k) == Off(r, k + 1) - Off(r, 1)
    {
      assert Off(r, 1) <= Off(r, k + 1);
    }
  }

  lemma LeaveOk(r: Ring)
    requires Ok(r) && Count(r) != 0
    ensures var s := Leave(r); Ok(s) && Used(s) == Used(r) - Off(r, 1) && Count(s) == Count(r) - 1
  {
    var s := Leave(r);
    LeaveKeeps(r);
    hide At, Off, Count, Leave;
    forall i, j | 0 <= i <= j <= Count(s)
      ensures Off(s, i) <= Off(s, j)
    {
      assert Off(r, i + 1) <= Off(r, j + 1);
    }
  }

  lemma LeaveOffs(r: Ring, k: nat)
    requires Ok(r) && k + 1 < Count(r)
    ensures var s := Leave(r);
            && InRange(s) && Off(r, 1) <= Off(r, k + 1) <= Off(r, k + 2)
            && Off(s, k) == Off(r, k + 1) - Off(r, 1) && Off(s, k + 1) == Off(r, k + 2) - Off(r, 1)
  {
    LeaveKeeps(r);
    hide At, Off, Leave, Count;
  }

  lemma LeavePacket(r: Ring, k: nat)
    requires Ok(r) && k + 1 < Count(r) && Ok(Leave(r)) && Count(Leave(r)) == Count(r) - 1
    ensures Packet(Leave(r), k) == Packet(r, k + 1)
  {
    hide At, Off, Count, Leave, Ordered, Span, Slot, Bound;
    LeaveOffs(r, k);
    LeaveKeeps(r);
    SpanShift(r, Leave(r), Off(Leave(r), k), Off(Leave(r), k + 1), Off(r, 1));
  }

  lemma SpanShift(r: Ring, s: Ring, a: nat, b: nat, d: nat)
    requires InRange(r) && InRange(s) && a <= b && b + d < B_SZ
    requires forall j :: a <= j < b ==> At(s, j) == At(r, j + d)
    ensures Span(s, a, b) == Span(r, a + d, b + d)
  {
    hide At;
    forall j | 0 <= j < b - a
      ensures Span(s, a, b)[j] == Span(r, a + d, b + d)[j]
    {
      assert At(s, a + j) == At(r, (a + j) + d);
    }
  }

  lemma LeaveOpen(r: Ring)
    requires OpenOk(r) && Count(r) != 0
    ensures var s := Leave(r); OpenOk(s) && OpenBytes(s) == OpenBytes(r)
  {
    var s := Leave(r);
    LeaveOk(r);
    LeaveKeeps(r);
    hide At, Off, Count, Leave;
    assert Off(r, 1) <= Off(r, Count(r)) <= Off(r, Count(r) + 1);
    LeaveOrdered(r);
  }

  lemma LeaveOrdered(r: Ring)
    requires OpenOk(r) && Count(r) != 0
    ensures Ordered(Leave(r), Count(r))
  {
    var s := Leave(r);
    LeaveKeeps(r);
    hide At, Off, Count, Leave;
    assert Off(r, 1) <= Off(r, Count(r)) <= Off(r, Count(r) + 1);
    forall i, j | 0 <= i <= j <= Count(r)
      ensures Off(s, i) <= Off(s, j)
    {
      assert Off(r, i + 1) <= Off(r, j + 1);
    }
  }

  lemma LeavePops(r: Ring)
    requires Ok(r) && Count(r) != 0
    ensures var s := Leave(r);
            && Ok(s) && Packets(s) == Packets(r)[1..] && Used(s) == Used(r) - |Packets(r)[0]|
            && (OpenOk(r) ==> OpenOk(s) && OpenBytes(s) == OpenBytes(r))
  {
    hide At, Off, Count, Leave, Ordered, Packet;
    LeaveOk(r);
    if OpenOk(r) {
      LeaveOpen(r);
    }
    forall k | 0 <= k < Count(r) - 1
      ensures Packets(Leave(r))[k] == Packets(r)[1..][k]
    {
      LeavePacket(r, k);
    }
  }

  /** The consumer rewrites the first unread byte in place. */
  function Rewrite(r: Ring, d: byte): Ring
    requires InRange(r)
  {
    r.(buf := r.buf[r.pIdx[r.tail] := d])
  }

  lemma RewritesFirst(r: Ring, d: byte)
    requires Ok(r) && Count(r) != 0 && Packets(r)[0] != []
    ensures var s := Rewrite(r, d);
            Ok(s) && Packets(s) == [[d] + Packets(r)[0][1..]] + Packets(r)[1..] && Used(s) == Used(r)
  {
    var s := Rewrite(r, d);
    RewriteKeeps(r, d);
    hide At, Off, Count, Rewrite;
    assert Ok(s);
    forall k | 0 <= k < Count(r)
      ensures Packets(s)[k] == ([[d] + Packets(r)[0][1..]] + Packets(r)[1..])[k]
    {
      assert k != 0 ==> Off(r, 1) <= Off(r, k);
      if k == 0 {
        assert Packet(s, 0) == [d] + Packet(r, 0)[1..];
      } else {
        assert Packet(s, k) == Packet(r, k);
      }
    }
  }

  lemma RewriteKeeps(r: Ring, d: byte)
    requires InRange(r)
    ensures var s := Rewrite(r, d);
            && InRange(s) && Count(s) == Count(r)
            && (forall k :: 0 <= k <= P_SZ ==> Off(s, k) == Off(r, k))
            && At(s, 0) == d && (forall j :: 1 <= j < B_SZ ==> At(s, j) == At(r, j))
  {
    var s := Rewrite(r, d);
    assert forall k :: 0 <= k <= P_SZ ==> Bound(s, k) == Bound(r, k);
  }

  /** The place `j` bytes behind the last published byte. */
  function Behind(r: Ring, j: nat): nat
    requires InRange(r) && j < B_SZ
  {
    Mask(r.pIdx[r.head] + j, B_SZ)
  }

  /** Writing there, while there is room, touches no published packet. */
  lemma WriteBehind(r: Ring, j: nat, d: byte)
    requires Ok(r) && Used(r) + j < B_SZ
    ensures var s := r.(buf := r.buf[Behind(r, j) := d]);
            Ok(s) && Packets(s) == Packets(r) && Used(s) == Used(r)
  {
    SlotOfHead(r);
    var s := r.(buf := r.buf[Behind(r, j) := d]);
    assert forall k :: 0 <= k <= P_SZ ==> Bound(s, k) == Bound(r, k);
    SamePackets(r, s);
  }

  /** Slots behind the head can be set freely as long as they are not the tail's. */
  lemma SetBehind(r: Ring, slot: nat, b: nat)
    requires Ok(r) && slot < P_SZ && b < B_SZ
    requires CircCnt(slot, r.tail, P_SZ) > Count(r)
    ensures var s := r.(pIdx := r.pIdx[slot := b]);
            Ok(s) && Packets(s) == Packets(r) && Used(s) == Used(r)
  {
    SlotOfHead(r);
    var s := r.(pIdx := r.pIdx[slot := b]);
    assert forall k :: 0 <= k <= Count(r) ==> Bound(s, k) == Bound(r, k);
    SamePackets(r, s);
  }
}
