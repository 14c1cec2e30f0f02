/** Rings that frame_send makes from the one at power-up while the interrupt does not
    fire, and that the failing cases of TxRing need. */
module TxReach {
  import opened Crc
  import opened Wire
  import opened PacketBuf
  import opened TxRing

  const POWER_UP := Ring(seq(B_SZ, _ => 0), seq(P_SZ, _ => 0), 0, 0)

  function StoreAll(r: Ring, bytes: seq<byte>): (s: Ring)
    requires InRange(r)
    ensures InRange(s)
    decreases |bytes|
  {
    if |bytes| == 0 then r else StoreAll(Store(r, bytes[0]), bytes[1..])
  }

  /** What frame_send builds and publishes. */
  function SendQuiet(r: Ring, payload: seq<byte>): (s: Ring)
    requires InRange(r)
    ensures InRange(s)
  {
    Publish(StoreAll(r, Stored(payload)))
  }

  function SendTimes(r: Ring, payload: seq<byte>, n: nat): (s: Ring)
    requires InRange(r)
    ensures InRange(s)
    decreases n
  {
    if n == 0 then r else SendTimes(SendQuiet(r, payload), payload, n - 1)
  }

  lemma {:induction false} StoreAllAppends(r: Ring, bytes: seq<byte>)
    requires OpenOk(r) && Off(r, Count(r) + 1) + |bytes| < B_SZ
    ensures var s := StoreAll(r, bytes);
            && OpenOk(s) && Packets(s) == Packets(r) && OpenBytes(s) == OpenBytes(r) + bytes
            && Used(s) == Used(r) && s.tail == r.tail
    decreases |bytes|
  {
    hide Store, Packets, OpenBytes, Ordered;
    if |bytes| == 0 {
      assert OpenBytes(r) + bytes == OpenBytes(r);
    } else {
      var d := bytes[0];
      StoreKeeps(r, d);
      StoreAppends(r, d);
      StoreTail(r, d);
      StoreAllAppends(Store(r, d), bytes[1..]);
      assert (OpenBytes(r) + [d]) + bytes[1..] == OpenBytes(r) + bytes;
    }
  }

  lemma StoreTail(r: Ring, d: byte)
    requires InRange(r)
    ensures Store(r, d).tail == r.tail
  {}

  /** A ring between calls: in order, nothing under construction. */
  predicate Idle(r: Ring, q: seq<seq<byte>>, used: nat) {
    OpenOk(r) && OpenBytes(r) == [] && Packets(r) == q && Used(r) == used
  }

  lemma PowerUpIdle()
    ensures Idle(POWER_UP, [], 0)
  {
    ZeroIdle(POWER_UP);
  }

  lemma ZeroIdle(r: Ring)
    requires InRange(r) && r.head == r.tail == 0 && r.pIdx[0] == r.pIdx[1]
    ensures Idle(r, [], 0)
  {
    hide At;
    assert Count(r) == 0 && Off(r, 1) == 0;
  }

  /** What is built is so where the code looks for it. */
  lemma BuiltNext(r: Ring, q: seq<seq<byte>>, used: nat, bytes: seq<byte>)
    requires Idle(r, q, used) && used + |bytes| < B_SZ
    ensures var s := StoreAll(r, bytes);
            && OpenOk(s) && OpenBytes(s) == bytes && Built(s, bytes)
            && Packets(s) == q && Count(s) == |q| && Used(s) == used
  {
    assert Off(r, Count(r) + 1) == used;
    StoreAllAppends(r, bytes);
    assert [] + bytes == bytes;
    OpenIsBuilt(StoreAll(r, bytes), bytes);
  }

  lemma OpenIsBuilt(r: Ring, bytes: seq<byte>)
    requires OpenOk(r) && OpenBytes(r) == bytes
    ensures Built(r, bytes)
  {
    SlotOfHead(r);
    assert Off(r, Count(r) + 1) == Used(r) + |bytes|;
    forall j | 0 <= j < |bytes|
      ensures r.buf[Behind(r, j)] == bytes[j]
    {
      assert bytes[j] == At(r, Used(r) + j);
    }
  }

  lemma SendIdle(r: Ring, q: seq<seq<byte>>, used: nat, payload: seq<byte>)
    requires Idle(r, q, used) && |q| <= 5 && used + |payload| + 2 < B_SZ
    ensures Idle(SendQuiet(r, payload), q + [Stored(payload)], used + |payload| + 2)
  {
    var w := Stored(payload);
    BuiltNext(r, q, used, w);
    var s := StoreAll(r, w);
    PublishAppends(s);
    PublishKeeps(s);
    hide StoreAll, Publish, Packets, OpenBytes, Ordered, Built, Stored;
    assert Used(Publish(s)) == Off(s, Count(s) + 1);
    OpenLength(s);
  }

  lemma OpenLength(s: Ring)
    requires OpenOk(s)
    ensures Off(s, Count(s) + 1) == Used(s) + |OpenBytes(s)|
  {}

  lemma {:induction false} TimesIdle(r: Ring, q: seq<seq<byte>>, used: nat, payload: seq<byte>, n: nat)
    requires Idle(r, q, used) && |q| + n <= 6 && used + n * (|payload| + 2) < B_SZ
    ensures exists p: seq<seq<byte>> :: |p| == |q| + n
              && Idle(SendTimes(r, payload, n), p, used + n * (|payload| + 2))
    decreases n
  {
    assert InRange(r);
    hide Idle, SendQuiet, Stored, InRange;
    if n == 0 {
      assert SendTimes(r, payload, n) == r;
    } else {
      assert n * (|payload| + 2) == (|payload| + 2) + (n - 1) * (|payload| + 2);
      assert 0 <= (n - 1) * (|payload| + 2) by { Product(n - 1, |payload| + 2); }
      SendIdle(r, q, used, payload);
      TimesIdle(SendQuiet(r, payload), q + [Stored(payload)], used + |payload| + 2, payload, n - 1);
    }
  }

  lemma Product(a: nat, b: nat)
    ensures 0 <= a * b
  {}

  /** Six packets of up to seven bytes, and a seventh that fits: it is built without
      objection, and publishing it moves the boundary the interrupt stands at. */
  lemma SixQueuedWitness(payload: seq<byte>)
    requires |payload| <= 7
    ensures var r := SendTimes(POWER_UP, payload, 6);
            var b := StoreAll(r, Stored(payload));
            && Ok(r) && Count(r) == 6 && Built(b, Stored(payload)) && Count(b) == 6
            && CircSpace(r.pIdx[r.head], r.pIdx[r.tail], B_SZ) >= |payload| + FRAME_CRC_SZ
            && CircNext(r.head, P_SZ) != r.tail
            && Publish(b).tail == b.tail && Publish(b).pIdx[b.tail] != b.pIdx[b.tail]
  {
    PowerUpIdle();
    TimesIdle(POWER_UP, [], 0, payload, 6);
    var r := SendTimes(POWER_UP, payload, 6);
    var used := 6 * (|payload| + 2);
    var q: seq<seq<byte>> :| |q| == 6 && Idle(r, q, used);
    BuiltNext(r, q, used, Stored(payload));
    SeedIff(StoreAll(r, Stored(payload)), Stored(payload));
    SlotOfHead(r);
  }

  /** One packet of 60 bytes leaves one byte free: frame_start finds a slot, and
      frame_done appends its two check bytes all the same. */
  lemma EmptyBuildWitness(payload: seq<byte>, x: byte, y: byte)
    requires |payload| == 60
    ensures var r := SendQuiet(POWER_UP, payload);
            && Count(r) == 1 && Built(r, [])
            && !(Ok(Publish(Store(Store(r, x), y))) && Packets(Publish(Store(Store(r, x), y))) == Packets(r) + [[x, y]])
  {
    PowerUpIdle();
    SendIdle(POWER_UP, [], 0, payload);
    var r := SendQuiet(POWER_UP, payload);
    hide SendQuiet, Publish, Store;
    OpenIsBuilt(r, []);
    EmptyBuildIff(r, x, y);
  }

  /** One packet queued and the interrupt enabled, and a second that fits: there is a
      schedule under which sending it leaves a ring that the next firing breaks. */
  lemma DrainedWitness(first: seq<byte>, second: seq<byte>)
    requires |first| + |second| + 4 < B_SZ
    ensures var t := Tx(StoreAll(SendQuiet(POWER_UP, first), Stored(second)), false, true);
            && TxRing.Good(t) && Built(t.ring, Stored(second)) && Packets(t.ring) == [Stored(first)]
            && exists n: nat :: !TxRing.Good(Dispatched(t, 0, n)) && !TxOk(Fire(Dispatched(t, 0, n)).tx)
  {
    PowerUpIdle();
    SendIdle(POWER_UP, [], 0, first);
    assert [] + [Stored(first)] == [Stored(first)];
    var r := SendQuiet(POWER_UP, first);
    hide SendQuiet, StoreAll;
    BuiltNext(r, [Stored(first)], |first| + 2, Stored(second));
    var t := Tx(StoreAll(r, Stored(second)), false, true);
    hide Idle, Dispatched, Fire, Stored, CheckBytes;
    DrainedTooSoon(t, Stored(second));
  }
}
