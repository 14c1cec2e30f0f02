/** Transmission on the AVR (avr/frame_async.c, the second half): frame_send and
    the packet builder of the main loop, and the data-register-empty interrupt that
    drains the packet ring they fill. */
module TxRing {
  import opened Crc
  import opened Wire
  import opened PacketBuf

  /** What the interrupt works on: the ring, the static `packet_started`, and
      whether the interrupt is enabled (UDRIE). */
  datatype Tx = Tx(ring: Ring, started: bool, udrie: bool)

  datatype Fired = Fired(tx: Tx, sent: seq<byte>)

  /** One firing of TX_ISR. */
  function Fire(t: Tx): (f: Fired)
    requires InRange(t.ring)
    ensures InRange(f.tx.ring)
  {
    var r := t.ring;
    var bIt := r.pIdx[r.tail];
    var it1 := CircNext(r.tail, P_SZ);
    if bIt == r.pIdx[it1] then
      Fired(Tx(Leave(r), it1 != r.head, t.udrie && it1 != r.head), [FLAG])
    else if r.tail == r.head then
      Fired(Tx(r, false, false), [])
    else if !t.started then
      Fired(t.(started := true), [FLAG])
    else
      var data := r.buf[bIt];
      if EscCheck(data) then Fired(t.(ring := Rewrite(r, Masked(data))), [ESC])
      else Fired(t.(ring := Advance(r, 1)), [data])
  }

  // ------------------------------------------------------------------
  // What is still to be sent
  // ------------------------------------------------------------------

  /** The wire bytes of queued packets, from the first unsent byte on. An escape
      that has been sent is accounted for by the rewriting of its byte. */
  function Body(q: seq<seq<byte>>): seq<byte>
    decreases |q|
  {
    if |q| == 0 then [] else Stuff(q[0]) + [FLAG] + Body(q[1..])
  }

  function Pending(q: seq<seq<byte>>, started: bool): seq<byte> {
    if q == [] then [] else (if started then [] else [FLAG]) + Body(q)
  }

  predicate NonEmptyFrom(q: seq<seq<byte>>, k: nat) {
    forall i :: k <= i < |q| ==> q[i] != []
  }

  /** The rings that the producer and the interrupt leave behind. A packet can be
      used up only while it is being sent, and nothing is being sent when the queue
      is empty. */
  predicate TxOk(t: Tx) {
    && Ok(t.ring)
    && NonEmptyFrom(Packets(t.ring), if t.started then 1 else 0)
    && (t.started ==> Packets(t.ring) != [])
  }

  lemma {:induction false} BodyAppend(q: seq<seq<byte>>, p: seq<byte>)
    ensures Body(q + [p]) == Body(q) + Stuff(p) + [FLAG]
    decreases |q|
  {
    hide Stuff;
    if |q| == 0 {
      assert (q + [p])[1..] == [];
      assert Body(q + [p]) == Stuff(p) + [FLAG] + Body([]);
    } else {
      assert (q + [p])[1..] == q[1..] + [p];
      BodyAppend(q[1..], p);
      assert Body(q + [p]) == Stuff(q[0]) + [FLAG] + (Body(q[1..]) + Stuff(p) + [FLAG]);
    }
  }

  /** A newly published packet adds its encoding to what is to be sent: with an
      opening flag of its own exactly if the ring was empty. */
  lemma PendingAppend(q: seq<seq<byte>>, started: bool, p: seq<byte>)
    requires q == [] ==> !started
    ensures Pending(q + [p], started) == Pending(q, started) + Encode(Sent(p, q == []))
  {
    hide Stuff, Body;
    BodyAppend(q, p);
    var open := if q == [] || !started then [FLAG] else [];
    var end := Stuff(p) + [FLAG];
    assert Body(q) + Stuff(p) + [FLAG] == Body(q) + end;
    if q == [] {
      assert Body([]) == [] by { EmptyBody(); }
      assert [] + end == end;
    } else {
      assert open + (Body(q) + end) == (open + Body(q)) + end;
      assert Encode(Sent(p, false)) == end;
    }
  }

  lemma EmptyBody()
    ensures Body([]) == []
  {}

  lemma FirstBytes(r: Ring)
    requires Ok(r) && Packets(r) != []
    ensures r.tail != r.head
    ensures CircNext(r.tail, P_SZ) == r.head <==> |Packets(r)| == 1
    ensures r.pIdx[r.tail] == r.pIdx[CircNext(r.tail, P_SZ)] <==> Packets(r)[0] == []
    ensures Packets(r)[0] != [] ==> r.buf[r.pIdx[r.tail]] == Packets(r)[0][0]
  {
    SlotOfHead(r);
    assert Packets(r)[0] == Packet(r, 0);
    if Packets(r)[0] != [] {
      assert At(r, 0) == Packet(r, 0)[0];
    }
  }

  lemma StuffCons(p: seq<byte>)
    requires p != []
    ensures EscCheck(p[0]) ==> Stuff(p) == [ESC] + Stuff([Masked(p[0])] + p[1..])
    ensures !EscCheck(p[0]) ==> Stuff(p) == [p[0]] + Stuff(p[1..])
  {
    hide Stuff, EscCheck;
    var b, t := p[0], p[1..];
    assert p == [b] + t;
    StuffOne(b, t);
    StuffOne(Masked(b), t);
    MaskTwice(b);
    if EscCheck(b) {
      assert [ESC, Masked(b)] + Stuff(t) == [ESC] + ([Masked(b)] + Stuff(t));
    }
  }

  lemma BodyHead(q: seq<seq<byte>>, x: byte, p: seq<byte>)
    requires q != [] && Stuff(q[0]) == [x] + Stuff(p)
    ensures Body(q) == [x] + Body([p] + q[1..])
  {
    hide Stuff;
    assert ([p] + q[1..])[1..] == q[1..];
  }

  /** Which branch a firing takes. */
  lemma FireIs(t: Tx)
    requires TxOk(t) && Packets(t.ring) != []
    ensures var r, q := t.ring, Packets(t.ring);
            var more := CircNext(r.tail, P_SZ) != r.head;
            Fire(t) == if q[0] == [] then Fired(Tx(Leave(r), more, t.udrie && more), [FLAG])
                       else if !t.started then Fired(t.(started := true), [FLAG])
                       else if EscCheck(q[0][0]) then Fired(t.(ring := Rewrite(r, Masked(q[0][0]))), [ESC])
                       else Fired(t.(ring := Advance(r, 1)), [q[0][0]])
  {
    FirstBytes(t.ring);
    hide Ordered, Packets, Leave, Rewrite, Advance, EscCheck, CircNext;
  }

  /** One firing with packets queued sends exactly the first pending byte. */
  lemma FireSends(t: Tx)
    requires TxOk(t) && Packets(t.ring) != []
    ensures var f := Fire(t);
            && TxOk(f.tx) && |f.sent| == 1
            && Pending(Packets(t.ring), t.started) == f.sent + Pending(Packets(f.tx.ring), f.tx.started)
            && f.tx.udrie == (t.udrie && Packets(f.tx.ring) != [])
  {
    var r, q := t.ring, Packets(t.ring);
    assert InRange(r) && Ok(r);
    FireIs(t);
    hide TxOk, Ok, InRange, Packets, Leave, Rewrite, Advance, EscCheck, Body, CircNext, Pending, Fire;
    if q[0] == [] {
      FireEnds(t);
    } else if !t.started {
      FireOpens(t);
    } else {
      FireByte(t);
    }
  }

  lemma FireOpens(t: Tx)
    requires TxOk(t) && Packets(t.ring) != [] && !t.started
    ensures TxOk(t.(started := true))
    ensures Pending(Packets(t.ring), false) == [FLAG] + Pending(Packets(t.ring), true)
  {
    hide Ok, Body;
    assert [FLAG] + Body(Packets(t.ring)) == [FLAG] + ([] + Body(Packets(t.ring)));
  }

  lemma FireEnds(t: Tx)
    requires TxOk(t) && Packets(t.ring) != [] && Packets(t.ring)[0] == []
    ensures var r, s := t.ring, Leave(t.ring);
            var started := CircNext(r.tail, P_SZ) != r.head;
            && TxOk(Tx(s, started, t.udrie && started))
            && (Packets(s) != [] <==> started)
            && Pending(Packets(r), t.started) == [FLAG] + Pending(Packets(s), started)
  {
    var r, q := t.ring, Packets(t.ring);
    assert Ok(r) && t.started;
    FirstBytes(r);
    LeavePops(r);
    hide Leave, Ok, CircNext, Packets, Pending;
    PendingEnd(q);
  }

  lemma PendingEnd(q: seq<seq<byte>>)
    requires q != [] && q[0] == [] && NonEmptyFrom(q, 1)
    ensures Pending(q, true) == [FLAG] + Pending(q[1..], q[1..] != [])
    ensures NonEmptyFrom(q[1..], 0)
  {
    hide Stuff;
    StuffTransparent([]);
    assert Body(q) == [] + [FLAG] + Body(q[1..]);
  }

  lemma FireByte(t: Tx)
    requires TxOk(t) && Packets(t.ring) != [] && Packets(t.ring)[0] != [] && t.started
    ensures var r, q := t.ring, Packets(t.ring);
            var d := q[0][0];
            var s := if EscCheck(d) then Rewrite(r, Masked(d)) else Advance(r, 1);
            && TxOk(t.(ring := s)) && Packets(s) != []
            && Pending(q, true) == [if EscCheck(d) then ESC else d] + Pending(Packets(s), true)
  {
    var r, q := t.ring, Packets(t.ring);
    var d := q[0][0];
    assert Ok(r) && NonEmptyFrom(q, 1) && Count(r) != 0;
    StuffCons(q[0]);
    hide Ok, Stuff, EscCheck, Rewrite, Advance, Packets, Body, Count;
    if EscCheck(d) {
      RewritesFirst(r, Masked(d));
      PendingHead(q, ESC, [Masked(d)] + q[0][1..]);
    } else {
      AdvanceReads(r, 1);
      PendingHead(q, d, q[0][1..]);
    }
  }

  lemma PendingHead(q: seq<seq<byte>>, x: byte, p: seq<byte>)
    requires q != [] && NonEmptyFrom(q, 1) && Stuff(q[0]) == [x] + Stuff(p)
    ensures Pending(q, true) == [x] + Pending([p] + q[1..], true)
    ensures NonEmptyFrom([p] + q[1..], 1)
  {
    hide Stuff, Body;
    BodyHead(q, x, p);
  }

  // ------------------------------------------------------------------
  // What the producer can rely on while the interrupt fires
  // ------------------------------------------------------------------

  /** A slot that no published packet ends in, and that the interrupt has left
      behind or stands at. */
  predicate Passed(r: Ring, slot: nat)
    requires InRange(r) && slot < P_SZ
  {
    slot == r.tail || CircCnt(slot, r.tail, P_SZ) > Count(r)
  }

  /** How far the boundary in a slot is from where the producer writes. */
  function Distance(r: Ring, slot: nat): (d: nat)
    requires InRange(r) && slot < P_SZ
    ensures d < B_SZ
  {
    CircCnt(r.pIdx[r.head], r.pIdx[slot], B_SZ)
  }

  /** A copy of the boundary in this slot never understates what is in use. */
  predicate Conservative(r: Ring, slot: nat)
    requires Ok(r) && slot < P_SZ
  {
    Passed(r, slot) && Used(r) <= Distance(r, slot)
  }

  predicate SlotStays(r: Ring, s: Ring, slot: nat)
    requires Ok(r) && Ok(s) && slot < P_SZ
  {
    && (CircCnt(slot, r.tail, P_SZ) > Count(r) ==>
          s.pIdx[slot] == r.pIdx[slot] && CircCnt(slot, s.tail, P_SZ) > Count(s))
    && (Conservative(r, slot) ==> Conservative(s, slot) && Distance(s, slot) <= Distance(r, slot))
  }

  /** `s` is a ring into which firings of the interrupt have turned `r`. */
  predicate Rely(r: Ring, s: Ring) {
    && Ok(r) && Ok(s)
    && s.head == r.head && s.pIdx[s.head] == r.pIdx[r.head]
    && Count(s) <= Count(r) && Used(s) <= Used(r)
    && (forall slot :: 0 <= slot < P_SZ ==> SlotStays(r, s, slot))
    && (forall j :: 0 <= j < B_SZ - Used(r) ==> s.buf[Behind(r, j)] == r.buf[Behind(r, j)])
  }

  lemma RelyReflexive(r: Ring)
    requires Ok(r)
    ensures Rely(r, r)
  {}

  lemma RelyTransitive(r: Ring, s: Ring, t: Ring)
    requires Rely(r, s) && Rely(s, t)
    ensures Rely(r, t)
  {
    hide Used, Count, Distance, Conservative, Ordered;
    forall slot | 0 <= slot < P_SZ
      ensures SlotStays(r, t, slot)
    {
      assert SlotStays(r, s, slot) && SlotStays(s, t, slot);
    }
    forall j | 0 <= j < B_SZ - Used(r)
      ensures t.buf[Behind(r, j)] == r.buf[Behind(r, j)]
    {
      assert Behind(s, j) == Behind(r, j);
    }
  }

  /** The tail is the boundary that is exactly as far away as what is in use. */
  lemma TailConservative(r: Ring)
    requires Ok(r)
    ensures Conservative(r, r.tail) && Distance(r, r.tail) == Used(r)
  {
    SlotOfHead(r);
  }

  lemma LeaveRely(r: Ring)
    requires Ok(r) && Packets(r) != [] && Packets(r)[0] == []
    ensures Rely(r, Leave(r))
  {
    var s := Leave(r);
    SlotOfHead(r);
    LeavePops(r);
    hide Packets, Ok;
    forall slot | 0 <= slot < P_SZ
      ensures SlotStays(r, s, slot)
    {
    }
  }

  lemma AdvanceRely(r: Ring)
    requires Ok(r) && Packets(r) != [] && Packets(r)[0] != []
    ensures Rely(r, Advance(r, 1))
  {
    var s := Advance(r, 1);
    SlotOfHead(r);
    FirstBytes(r);
    AdvanceReads(r, 1);
    hide Packets, Ordered;
    TailConservative(r);
    TailConservative(s);
    forall slot | 0 <= slot < P_SZ
      ensures SlotStays(r, s, slot)
    {
    }
  }

  lemma RewriteRely(r: Ring, d: byte)
    requires Ok(r) && Packets(r) != [] && Packets(r)[0] != []
    ensures Rely(r, Rewrite(r, d))
  {
    var s := Rewrite(r, d);
    SlotOfHead(r);
    FirstBytes(r);
    assert |Packet(r, 0)| >= 1 && Used(r) >= 1;
    RewritesFirst(r, d);
    TailConservative(r);
    hide Packets, Ordered;
    forall slot | 0 <= slot < P_SZ
      ensures SlotStays(r, s, slot)
    {
    }
  }

  lemma FireRely(t: Tx)
    requires TxOk(t) && Packets(t.ring) != []
    ensures Rely(t.ring, Fire(t).tx.ring)
  {
    var r, q := t.ring, Packets(t.ring);
    assert InRange(r) && Ok(r);
    FirstBytes(r);
    RelyReflexive(r);
    hide Ok, Packets, Leave, Rewrite, Advance, EscCheck, CircNext, Rely;
    if q[0] == [] {
      LeaveRely(r);
    } else if !t.started {
    } else if EscCheck(q[0][0]) {
      RewriteRely(r, Masked(q[0][0]));
    } else {
      AdvanceRely(r);
    }
  }

  // ------------------------------------------------------------------
  // What the producer prepares
  // ------------------------------------------------------------------

  /** `bytes` lie behind the last published byte, where nobody else writes. */
  predicate Staged(r: Ring, bytes: seq<byte>) {
    && Ok(r) && Used(r) + |bytes| < B_SZ
    && forall j :: 0 <= j < |bytes| ==> r.buf[Behind(r, j)] == bytes[j]
  }

  /** And the boundary after the head is at their end. */
  predicate Built(r: Ring, bytes: seq<byte>) {
    Staged(r, bytes) && r.pIdx[CircNext(r.head, P_SZ)] == Behind(r, |bytes|)
  }

  lemma StagedRely(r: Ring, s: Ring, bytes: seq<byte>)
    requires Rely(r, s) && Staged(r, bytes)
    ensures Staged(s, bytes)
  {
    forall j | 0 <= j < |bytes|
      ensures s.buf[Behind(s, j)] == bytes[j]
    {
      assert Behind(s, j) == Behind(r, j);
    }
  }

  lemma BuiltRely(r: Ring, s: Ring, bytes: seq<byte>)
    requires Rely(r, s) && Built(r, bytes)
    ensures Built(s, bytes)
  {
    SlotOfHead(r);
    StagedRely(r, s, bytes);
    assert SlotStays(r, s, CircNext(r.head, P_SZ));
  }

  lemma EndOfBuilt(r: Ring, bytes: seq<byte>)
    requires Built(r, bytes)
    ensures InRange(r) && |bytes| < B_SZ && r.pIdx[CircNext(r.head, P_SZ)] == Behind(r, |bytes|)
  {}

  lemma SpaceBehind(r: Ring, s: Ring, n: nat, bIt: nat)
    requires InRange(r) && InRange(s) && s.pIdx[s.head] == r.pIdx[r.head] && n < B_SZ && bIt < B_SZ
    requires CircCnt(s.pIdx[s.head], bIt, B_SZ) + n < B_SZ
    ensures CircCnt(Behind(r, n), bIt, B_SZ) == CircCnt(s.pIdx[s.head], bIt, B_SZ) + n
  {}

  /** A built packet is the open packet of the ring. */
  lemma BuiltIsOpen(r: Ring, bytes: seq<byte>)
    requires Built(r, bytes)
    ensures OpenOk(r) && OpenBytes(r) == bytes
  {
    SlotOfHead(r);
    assert Off(r, Count(r) + 1) == Used(r) + |bytes|;
    forall j | 0 <= j < |bytes|
      ensures At(r, Used(r) + j) == bytes[j]
    {
      assert r.buf[Behind(r, j)] == bytes[j];
    }
  }

  lemma StageByte(r: Ring, bytes: seq<byte>, d: byte)
    requires Staged(r, bytes) && Used(r) + |bytes| + 1 < B_SZ
    ensures var s := r.(buf := r.buf[Behind(r, |bytes|) := d]);
            Staged(s, bytes + [d]) && Packets(s) == Packets(r) && Used(s) == Used(r)
  {
    var s := r.(buf := r.buf[Behind(r, |bytes|) := d]);
    WriteBehind(r, |bytes|, d);
    forall j | 0 <= j < |bytes| + 1
      ensures s.buf[Behind(s, j)] == (bytes + [d])[j]
    {
      assert Behind(s, j) == Behind(r, j);
    }
  }

  lemma SetNextSlot(r: Ring, bytes: seq<byte>, slot: nat, b: nat)
    requires Staged(r, bytes) && slot < P_SZ && b < B_SZ
    requires CircCnt(slot, r.tail, P_SZ) > Count(r)
    ensures var s := r.(pIdx := r.pIdx[slot := b]);
            Staged(s, bytes) && Packets(s) == Packets(r) && Used(s) == Used(r)
  {
    var s := r.(pIdx := r.pIdx[slot := b]);
    SlotOfHead(r);
    SetBehind(r, slot, b);
    forall j | 0 <= j < |bytes|
      ensures s.buf[Behind(s, j)] == bytes[j]
    {
      assert Behind(s, j) == Behind(r, j);
    }
  }

  // ------------------------------------------------------------------
  // The wire
  // ------------------------------------------------------------------

  /** What has been sent and what is still pending are together the transmission of
      the accepted packets, in order. So what has been sent is a prefix of it. */
  predicate Live(t: Tx, wire: seq<byte>, log: seq<Sent>) {
    && TxOk(t)
    && wire + Pending(Packets(t.ring), t.started) == Transmission(log)
    && (log != [] ==> log[0].flagged)
  }

  lemma LiveSame(t: Tx, u: Tx, wire: seq<byte>, log: seq<Sent>)
    requires Live(t, wire, log) && Ok(u.ring)
    requires Packets(u.ring) == Packets(t.ring) && u.started == t.started
    ensures Live(u, wire, log)
  {}

  lemma LiveUdrie(t: Tx, wire: seq<byte>, log: seq<Sent>)
    ensures Live(t, wire, log) <==> Live(t.(udrie := true), wire, log)
  {}

  lemma LiveFire(t: Tx, wire: seq<byte>, log: seq<Sent>)
    requires Live(t, wire, log) && Packets(t.ring) != []
    ensures var f := Fire(t); Live(f.tx, wire + f.sent, log)
  {
    var f := Fire(t);
    FireSends(t);
    hide Pending, Fire, Packets, TxOk;
    var before, after := Pending(Packets(t.ring), t.started), Pending(Packets(f.tx.ring), f.tx.started);
    assert wire + before == (wire + f.sent) + after;
  }

  /** Everything a firing keeps, and what it tells the producer. */
  lemma FireKeeps(t: Tx, wire: seq<byte>, log: seq<Sent>)
    requires Live(t, wire, log) && Count(t.ring) != 0
    ensures var f := Fire(t);
            && Live(f.tx, wire + f.sent, log) && Rely(t.ring, f.tx.ring)
            && f.tx.udrie == (t.udrie && Count(f.tx.ring) != 0) && |f.sent| == 1
  {
    LiveFire(t, wire, log);
    FireSends(t);
    FireRely(t);
  }

  /** The head moves over a built packet. */
  lemma LivePublish(t: Tx, wire: seq<byte>, log: seq<Sent>, bytes: seq<byte>)
    requires Live(t, wire, log) && Built(t.ring, bytes) && bytes != [] && Count(t.ring) <= 5
    ensures var s := Publish(t.ring);
            var x := Sent(bytes, Packets(t.ring) == []);
            && Live(t.(ring := s), wire, log + [x]) && Packets(s) == Packets(t.ring) + [bytes]
  {
    var r, q := t.ring, Packets(t.ring);
    var x := Sent(bytes, q == []);
    assert Ok(r) && (q == [] ==> !t.started);
    PublishTxOk(t, bytes);
    PendingAppend(q, t.started, bytes);
    TransmissionSnoc(log, x);
    ConcatAssoc(wire, Pending(q, t.started), Encode(x));
    hide TxOk, Packets, Ok, Publish, Built, Encode, Pending;
    if log == [] {
      NothingSent(wire, q, t.started);
    }
  }

  lemma PublishUses(r: Ring, bytes: seq<byte>)
    requires Built(r, bytes) && Count(r) <= 5
    ensures var s := Publish(r);
            Ok(s) && Used(s) == Used(r) + |bytes| && Count(s) == Count(r) + 1
  {
    BuiltIsOpen(r, bytes);
    PublishAppends(r);
    PublishKeeps(r);
    SlotOfHead(r);
    assert Off(r, Count(r) + 1) == Used(r) + |bytes|;
    hide At, Publish, Off, Packets, OpenBytes;
  }

  lemma ConcatAssoc(a: seq<byte>, b: seq<byte>, c: seq<byte>)
    ensures a + (b + c) == (a + b) + c
  {}

  lemma NothingSent(wire: seq<byte>, q: seq<seq<byte>>, started: bool)
    requires wire + Pending(q, started) == Transmission([])
    ensures q == []
  {
    assert |wire + Pending(q, started)| == 0;
  }

  lemma PublishTxOk(t: Tx, bytes: seq<byte>)
    requires TxOk(t) && Built(t.ring, bytes) && bytes != [] && Count(t.ring) <= 5
    ensures var s := Publish(t.ring);
            TxOk(t.(ring := s)) && Packets(s) == Packets(t.ring) + [bytes]
  {
    hide Packets, Ordered, OpenBytes, Publish, Staged;
    BuiltIsOpen(t.ring, bytes);
    PublishAppends(t.ring);
  }

  // ------------------------------------------------------------------
  // Whole runs of the interrupt
  // ------------------------------------------------------------------

  /** `n` firings and what they send. */
  function FireTimes(t: Tx, n: nat): Fired
    requires InRange(t.ring)
    decreases n
  {
    if n == 0 then Fired(t, [])
    else
      var f := Fire(t);
      var g := FireTimes(f.tx, n - 1);
      Fired(g.tx, f.sent + g.sent)
  }

  /** While nothing is added, `n` firings send the first `n` pending bytes, whatever
      is still pending stays so, and the interrupt turns itself off with the last
      of them. */
  lemma {:induction false} FiringsDrain(t: Tx, n: nat)
    requires TxOk(t) && n <= |Pending(Packets(t.ring), t.started)|
    requires t.udrie <==> Packets(t.ring) != []
    ensures var p := Pending(Packets(t.ring), t.started);
            var g := FireTimes(t, n);
            && TxOk(g.tx) && g.sent == p[..n] && Pending(Packets(g.tx.ring), g.tx.started) == p[n..]
            && (g.tx.udrie <==> Packets(g.tx.ring) != [])
            && (n == |p| ==> Packets(g.tx.ring) == [] && !g.tx.udrie)
    decreases n
  {
    var q := Packets(t.ring);
    assert Ok(t.ring);
    PendingSome(q, t.started);
    if n != 0 {
      FireSends(t);
      var f := Fire(t);
      hide Pending, Packets, TxOk, Fire, Ok;
      FiringsDrain(f.tx, n - 1);
      DropFirst(Pending(q, t.started), f.sent, n);
      PendingSome(Packets(FireTimes(t, n).tx.ring), FireTimes(t, n).tx.started);
    }
  }

  lemma DropFirst(p: seq<byte>, x: seq<byte>, n: nat)
    requires 1 <= n <= |p| && |x| == 1 && x <= p
    ensures p[..n] == x + p[|x|..][..n - 1] && p[n..] == p[|x|..][n - 1..]
  {}

  lemma PendingSome(q: seq<seq<byte>>, started: bool)
    ensures Pending(q, started) == [] <==> q == []
  {}

  // ------------------------------------------------------------------
  // Where the code does not keep its ring
  // ------------------------------------------------------------------

  /** The boundary behind the head is where the next packet starts. */
  predicate Seeded(r: Ring)
    requires InRange(r)
  {
    r.pIdx[r.head] == r.pIdx[CircNext(r.head, P_SZ)]
  }

  lemma SeededRely(r: Ring, s: Ring)
    requires Rely(r, s) && Seeded(r)
    ensures Seeded(s)
  {
    SlotOfHead(r);
    assert SlotStays(r, s, CircNext(r.head, P_SZ));
  }

  /** Enabling the interrupt is safe exactly if something is queued. With an empty
      ring, as Dispatch leaves it when it is drained too soon, the next firing
      moves the tail past the head. */
  lemma EnabledIff(t: Tx)
    requires TxOk(t) && Seeded(t.ring)
    ensures TxOk(Fire(t).tx) <==> Packets(t.ring) != []
  {
    if Packets(t.ring) != [] {
      FireSends(t);
    } else {
      SlotOfHead(t.ring);
      assert Count(Leave(t.ring)) == 7;
    }
  }

  /** With a packet under construction instead, and nothing queued, a firing finds the
      ring empty: it sends nothing, leaves the ring alone and turns itself off. */
  lemma IdleFiring(t: Tx)
    requires TxOk(t) && Packets(t.ring) == [] && !Seeded(t.ring)
    ensures Fire(t) == Fired(Tx(t.ring, false, false), []) && TxOk(Fire(t).tx)
  {
    SlotOfHead(t.ring);
  }

  /** The states between calls: the interrupt is enabled exactly while something is
      queued. */
  predicate Good(t: Tx) {
    TxOk(t) && (t.udrie <==> Packets(t.ring) != [])
  }

  /** Up to `n` firings, as long as the interrupt is enabled. */
  function WhileOn(t: Tx, n: nat): (u: Tx)
    requires InRange(t.ring)
    ensures InRange(u.ring)
    decreases n
  {
    if n == 0 || !t.udrie then t else WhileOn(Fire(t).tx, n - 1)
  }

  function MovedHead(t: Tx): (u: Tx)
    requires InRange(t.ring)
    ensures InRange(u.ring)
  {
    t.(ring := Publish(t.ring))
  }

  /** The end of frame_send and frame_done when the interrupt can fire `k` times
      before the head moves and `n` times before it is enabled. */
  function Dispatched(t: Tx, k: nat, n: nat): (u: Tx)
    requires InRange(t.ring)
    ensures InRange(u.ring)
  {
    WhileOn(MovedHead(WhileOn(t, k)), n).(udrie := true)
  }

  function PendingOf(t: Tx): seq<byte>
    requires TxOk(t)
  {
    Pending(Packets(t.ring), t.started)
  }

  lemma GoodFire(t: Tx)
    requires Good(t) && t.udrie
    ensures Good(Fire(t).tx) && Rely(t.ring, Fire(t).tx.ring)
    ensures |PendingOf(Fire(t).tx)| == |PendingOf(t)| - 1
  {
    assert Ok(t.ring);
    FireSends(t);
    FireRely(t);
    hide Fire, Pending, Packets, Rely, Ordered;
    assert |Fire(t).sent + PendingOf(Fire(t).tx)| == 1 + |PendingOf(Fire(t).tx)|;
  }

  lemma GoodIs(t: Tx)
    requires Good(t)
    ensures TxOk(t) && Rely(t.ring, t.ring) && InRange(t.ring)
    ensures t.udrie <==> PendingOf(t) != []
  {
    RelyReflexive(t.ring);
    PendingSome(Packets(t.ring), t.started);
  }

  lemma {:induction false} GoodWhileOn(t: Tx, n: nat)
    requires Good(t)
    ensures Good(WhileOn(t, n)) && Rely(t.ring, WhileOn(t, n).ring)
    ensures |PendingOf(WhileOn(t, n))| == if n <= |PendingOf(t)| then |PendingOf(t)| - n else 0
    decreases n
  {
    hide Fire, Packets, Rely, Ok, InRange, TxOk, PendingOf, Good;
    GoodIs(t);
    if n != 0 && t.udrie {
      GoodFire(t);
      GoodWhileOn(Fire(t).tx, n - 1);
      RelyTransitive(t.ring, Fire(t).tx.ring, WhileOn(t, n).ring);
    }
  }

  lemma MovedIsSeeded(t: Tx)
    requires InRange(t.ring)
    ensures Seeded(MovedHead(t).ring)
  {}

  lemma MovedPending(t: Tx, bytes: seq<byte>)
    requires Good(t) && Built(t.ring, bytes) && bytes != [] && Count(t.ring) <= 5
    ensures var u := MovedHead(t);
            && TxOk(u) && Packets(u.ring) == Packets(t.ring) + [bytes]
            && (Packets(t.ring) != [] ==> Good(u) && |PendingOf(u)| == |PendingOf(t)| + |Stuff(bytes)| + 1)
  {
    assert Ok(t.ring);
    PublishTxOk(t, bytes);
    PendingAppend(Packets(t.ring), t.started, bytes);
  }

  /** The end of frame_send and frame_done, schedule by schedule: with `p` bytes still
      to be sent when the packet is built, it leaves a good state if and only if
      they are sent before the head moves, so that the interrupt is off, or not all
      the rest is sent before it is enabled. */
  lemma DispatchedIff(t: Tx, bytes: seq<byte>, k: nat, n: nat)
    requires Good(t) && Built(t.ring, bytes) && bytes != [] && Count(t.ring) <= 5
    ensures var p := |PendingOf(t)|;
            Good(Dispatched(t, k, n)) <==> p <= k || n < p - k + |Stuff(bytes)| + 1
  {
    var u := WhileOn(t, k);
    GoodWhileOn(t, k);
    BuiltRely(t.ring, u.ring, bytes);
    MovedPending(u, bytes);
    GoodIs(u);
    PendingSome(Packets(u.ring), u.started);
    var v := MovedHead(u);
    hide Built, Rely, Stuff, MovedHead, Packets, Pending;
    if Packets(u.ring) == [] {
      assert WhileOn(v, n) == v;
    } else {
      GoodWhileOn(v, n);
      var w := WhileOn(v, n);
      GoodIs(w);
      PendingSome(Packets(w.ring), w.started);
    }
  }

  /** While something is queued when the head moves, the interrupt may drain it all
      before it is enabled. The firing after that breaks the ring. */
  lemma DrainedTooSoon(t: Tx, bytes: seq<byte>)
    requires Good(t) && Built(t.ring, bytes) && bytes != [] && Count(t.ring) <= 5
    requires Packets(t.ring) != []
    ensures var n := |PendingOf(t)| + |Stuff(bytes)| + 1;
            !Good(Dispatched(t, 0, n)) && !TxOk(Fire(Dispatched(t, 0, n)).tx)
  {
    hide Fire, Dispatched, Stuff, Seeded, Built, Ok, Packets, Pending, PendingOf, TxOk;
    GoodIs(t);
    var n := |PendingOf(t)| + |Stuff(bytes)| + 1;
    DispatchedIff(t, bytes, 0, n);
    DispatchedSeeded(t, bytes, n);
    EnabledIff(Dispatched(t, 0, n));
  }

  lemma DispatchedSeeded(t: Tx, bytes: seq<byte>, n: nat)
    requires Good(t) && Built(t.ring, bytes) && bytes != [] && Count(t.ring) <= 5
    requires Packets(t.ring) != []
    ensures TxOk(Dispatched(t, 0, n)) && Seeded(Dispatched(t, 0, n).ring) && Dispatched(t, 0, n).udrie
  {
    var u := MovedHead(t);
    MovedPending(t, bytes);
    MovedIsSeeded(t);
    hide Built, Rely, Stuff, MovedHead, Packets, Pending, Ok, Seeded;
    GoodWhileOn(u, n);
    SeededRely(u.ring, WhileOn(u, n).ring);
  }

  /** So it leaves a good state under every schedule exactly if the ring is empty
      before the head moves: only then can the interrupt not fire in between. */
  lemma DispatchIff(t: Tx, bytes: seq<byte>)
    requires Good(t) && Built(t.ring, bytes) && bytes != [] && Count(t.ring) <= 5
    ensures (forall k: nat, n: nat :: Good(Dispatched(t, k, n))) <==> Packets(t.ring) == []
  {
    PendingSome(Packets(t.ring), t.started);
    if Packets(t.ring) == [] {
      forall k: nat, n: nat
        ensures Good(Dispatched(t, k, n))
      {
        DispatchedIff(t, bytes, k, n);
      }
    } else {
      DrainedTooSoon(t, bytes);
    }
  }

  /** Seeding the slot after the packet is safe exactly if at most five packets are
      queued. With six, the slot is the one the interrupt stands at, and the
      boundary in it changes under the interrupt. */
  lemma SeedIff(r: Ring, bytes: seq<byte>)
    requires Built(r, bytes) && bytes != []
    ensures var s := Publish(r);
            && (Ok(s) && Packets(s) == Packets(r) + [bytes] <==> Count(r) <= 5)
            && (Count(r) == 6 ==> s.tail == r.tail && s.pIdx[s.tail] != r.pIdx[r.tail])
  {
    SlotOfHead(r);
    BuiltIsOpen(r, bytes);
    if Count(r) <= 5 {
      PublishAppends(r);
    } else {
      assert Count(Publish(r)) == 7;
      assert Off(r, 7) == Used(r) + |bytes|;
    }
  }

  /** frame_done on a packet to which nothing was appended is safe exactly if there
      happens to be room for the two check bytes, which nothing has made sure of. */
  lemma EmptyBuildIff(r: Ring, x: byte, y: byte)
    requires Built(r, []) && Count(r) <= 5
    ensures var s := Publish(Store(Store(r, x), y));
            Ok(s) && Packets(s) == Packets(r) + [[x, y]] <==> Used(r) + 2 < B_SZ
  {
    SlotOfHead(r);
    BuiltIsOpen(r, []);
    var s := Store(Store(r, x), y);
    if Used(r) + 2 < B_SZ {
      StoreAppends(r, x);
      StoreAppends(Store(r, x), y);
      assert [] + [x] + [y] == [x, y];
      PublishAppends(s);
    } else {
      StoreWraps(r, x, y);
    }
  }

  lemma StoreWraps(r: Ring, x: byte, y: byte)
    requires Built(r, []) && Count(r) <= 5 && Used(r) + 2 >= B_SZ
    ensures !Ok(Publish(Store(Store(r, x), y)))
  {
    SlotOfHead(r);
    var s := Publish(Store(Store(r, x), y));
    var n := Count(r);
    assert Count(s) == n + 1;
    assert Bound(s, 0) == Bound(r, 0) && Bound(s, n) == Bound(r, n);
    assert Bound(s, n + 1) == Mask(r.pIdx[r.head] + 2, B_SZ);
    assert Off(s, n + 1) < Off(s, n);
  }

  // ------------------------------------------------------------------
  // The code
  // ------------------------------------------------------------------

  lemma SeedRely(r: Ring, s: Ring, bytes: seq<byte>)
    requires Rely(r, s) && Built(r, bytes) && Count(r) <= 5
    ensures var ih1 := CircNext(r.head, P_SZ);
            var ih2 := CircNext(ih1, P_SZ);
            Built(s, bytes) && (r.pIdx[ih2] == r.pIdx[ih1] ==> s.pIdx[ih2] == s.pIdx[ih1])
  {
    BuiltRely(r, s, bytes);
    SlotOfHead(r);
    assert SlotStays(r, s, CircNext(r.head, P_SZ));
    assert SlotStays(r, s, CircNext(CircNext(r.head, P_SZ), P_SZ));
  }

  class Transmitter {
    const buf: array<byte>
    const pIdx: array<nat>
    var head: nat
    var tail: nat
    var packetStarted: bool
    var udrie: bool
    var frameStartFlag: bool
    var frameCrcTemp: bv16
    var due: nat               // how often the interrupt can still fire
    ghost var wire: seq<byte>  // what has been sent
    ghost var log: seq<Sent>   // the packets accepted
    ghost var built: seq<byte> // what was appended since frame_start

    ghost function Snapshot(): Ring
      reads this, buf, pIdx
    {
      Ring(buf[..], pIdx[..], head, tail)
    }

    ghost function State(): Tx
      reads this, buf, pIdx
    {
      Tx(Snapshot(), packetStarted, udrie)
    }

    ghost predicate Sound()
      reads this, buf, pIdx
    {
      InRange(Snapshot())
    }

    /** The interrupt cannot fire while nothing is queued. */
    ghost predicate Safe()
      reads this, buf, pIdx
      ensures Safe() ==> Ok(Snapshot())
    {
      Live(State(), wire, log) && (udrie ==> Count(Snapshot()) != 0)
    }

    /** Between calls the interrupt is enabled exactly while something is queued. */
    ghost predicate Valid()
      reads this, buf, pIdx
      ensures Valid() ==> Safe() && Sound()
    {
      Live(State(), wire, log) && (udrie <==> Count(Snapshot()) != 0)
    }

    ghost function Queue(): seq<seq<byte>>
      requires Safe()
      reads this, buf, pIdx
    {
      Packets(Snapshot())
    }

    /** Static storage is zero at start, and the interrupt is off. */
    constructor (due: nat)
      ensures Valid() && fresh(buf) && fresh(pIdx) && this.due == due
      ensures wire == [] && log == [] && Queue() == [] && !udrie && !frameStartFlag
    {
      buf := new byte[64](_ => 0);
      pIdx := new nat[8](_ => 0);
      head, tail := 0, 0;
      packetStarted, udrie, frameStartFlag, frameCrcTemp := false, false, false, 0;
      this.due := due;
      wire, log, built := [], [], [];
    }

    /** TX_ISR. */
    method TxIsr() returns (sent: seq<byte>)
      requires Sound()
      modifies this`tail, this`packetStarted, this`udrie, this`wire, buf, pIdx
      ensures Sound()
      ensures Fired(State(), sent) == Fire(old(State()))
      ensures wire == old(wire) + sent
    {
      var it := tail;
      var bIt := pIdx[it];
      var it1 := CircNext(it, P_SZ);
      if bIt == pIdx[it1] {
        tail := it1;
        if it1 == head {
          packetStarted := false;
          udrie := false;
        } else {
          packetStarted := true;
        }
        sent := [FLAG];
      } else if it == head {
        packetStarted := false;
        udrie := false;
        sent := [];
      } else if !packetStarted {
        packetStarted := true;
        sent := [FLAG];
      } else {
        var data := buf[bIt];
        if EscCheck(data) {
          sent := [ESC];
          buf[bIt] := data ^ MASK;
        } else {
          sent := [data];
          pIdx[it] := CircNext(bIt, B_SZ);
        }
      }
      wire := wire + sent;
    }

    /** Any number of firings of the interrupt, as long as it is enabled and due: what
        may happen between two accesses of the main loop to shared memory. */
    method Interrupts()
      requires Sound()
      modifies this`tail, this`packetStarted, this`udrie, this`wire, this`due, buf, pIdx
      ensures Sound()
      ensures old(Safe()) ==> Safe() && Rely(old(Snapshot()), Snapshot()) && Sends()
      ensures old(Valid()) ==> Valid()
      ensures !old(udrie) ==> State() == old(State())
    {
      hide Live, Rely, Ordered;
      var n: nat := *;
      if Safe() {
        RelyReflexive(Snapshot());
      }
      while n > 0 && udrie && due > 0
        invariant Sound()
        invariant old(Safe()) ==> Safe() && Rely(old(Snapshot()), Snapshot()) && Sends()
        invariant old(Valid()) ==> Valid()
        invariant !old(udrie) ==> State() == old(State())
      {
        ghost var t, safe := State(), Safe();
        if safe {
          FireKeeps(t, wire, log);
        }
        var sent := TxIsr();
        due := due - 1;
        if old(Safe()) {
          RelyTransitive(old(Snapshot()), t.ring, Snapshot());
        }
        n := n - 1;
      }
    }

    /** Only the interrupt sends: one byte each time it fires, and none while it is
        off. It is not enabled either, or only at the end. */
    twostate predicate SendsUntilOn()
      reads this
    {
      && old(wire) <= wire && |wire| + due == |old(wire)| + old(due)
      && (!old(udrie) ==> wire == old(wire) && tail == old(tail) && packetStarted == old(packetStarted))
    }

    twostate predicate Sends()
      reads this
    {
      SendsUntilOn() && (!old(udrie) ==> !udrie)
    }

    /** A write of the producer to the data ring, one byte behind `bytes`. */
    method WriteBuf(place: nat, d: byte, ghost bytes: seq<byte>)
      requires Sound() && place < B_SZ
      modifies buf
      ensures Sound()
      ensures old(Safe()) && Staged(old(Snapshot()), bytes) && Used(old(Snapshot())) + |bytes| + 1 < B_SZ
              && place == Behind(old(Snapshot()), |bytes|) ==>
                && Safe() && Staged(Snapshot(), bytes + [d])
                && Used(Snapshot()) == Used(old(Snapshot()))
                && (old(Valid()) ==> Valid())
    {
      ghost var t, r := State(), Snapshot();
      buf[place] := d;
      if Live(t, wire, log) && Staged(r, bytes) && Used(r) + |bytes| + 1 < B_SZ && place == Behind(r, |bytes|) {
        StageByte(r, bytes, d);
        assert Snapshot() == r.(buf := r.buf[place := d]);
        LiveSame(t, State(), wire, log);
      }
    }

    /** A write of the producer to a slot behind the head. */
    method WriteIdx(slot: nat, b: nat, ghost bytes: seq<byte>)
      requires Sound() && slot < P_SZ && b < B_SZ
      modifies pIdx
      ensures Sound() && pIdx[slot] == b
      ensures forall i :: 0 <= i < P_SZ && i != slot ==> pIdx[i] == old(pIdx[i])
      ensures old(Safe()) && Staged(old(Snapshot()), bytes)
              && CircCnt(slot, tail, P_SZ) > Count(old(Snapshot())) ==>
                && Safe() && Staged(Snapshot(), bytes)
                && Used(Snapshot()) == Used(old(Snapshot()))
                && (old(Valid()) ==> Valid())
    {
      ghost var t, r := State(), Snapshot();
      pIdx[slot] := b;
      if Live(t, wire, log) && Staged(r, bytes) && CircCnt(slot, tail, P_SZ) > Count(r) {
        SetNextSlot(r, bytes, slot, b);
        assert Snapshot() == r.(pIdx := r.pIdx[slot := b]);
        LiveSame(t, State(), wire, log);
      }
    }

    /** What a step of the producer that publishes nothing may do besides. */
    twostate predicate Onward()
      reads this, buf, pIdx
    {
      && old(Safe()) && Safe() && Sends()
      && Count(Snapshot()) <= Count(old(Snapshot())) && Used(Snapshot()) <= Used(old(Snapshot()))
      && (old(Valid()) ==> Valid())
    }

    /** A read of the end of the packet under construction. */
    method ReadEnd(ih1: nat, ghost bytes: seq<byte>) returns (b: nat)
      requires Sound() && ih1 == CircNext(head, P_SZ)
      modifies this`tail, this`packetStarted, this`udrie, this`wire, this`due, buf, pIdx
      ensures Sound() && b < B_SZ
      ensures old(Safe()) && Built(old(Snapshot()), bytes) ==>
                && Onward() && Built(Snapshot(), bytes) && b == Behind(Snapshot(), |bytes|)
    {
      hide Live, Ordered, Used, Packets, SlotStays, Packet, Built;
      ghost var ok, r := Safe() && Built(Snapshot(), bytes), Snapshot();
      Interrupts();
      if ok {
        BuiltRely(r, Snapshot(), bytes);
        EndOfBuilt(Snapshot(), bytes);
      }
      b := pIdx[ih1];
      r := Snapshot();
      Interrupts();
      if ok {
        BuiltRely(r, Snapshot(), bytes);
        EndOfBuilt(Snapshot(), bytes);
      }
    }

    /** PBUF_APPEND8, for a packet under construction that holds `bytes`. */
    method Append8(val: byte, ghost bytes: seq<byte>)
      requires Sound()
      modifies this`tail, this`packetStarted, this`udrie, this`wire, this`due, buf, pIdx
      ensures Sound()
      ensures old(Safe()) && Built(old(Snapshot()), bytes) && Used(old(Snapshot())) + |bytes| + 1 < B_SZ ==>
                Onward() && Built(Snapshot(), bytes + [val])
    {
      hide Live, Ordered, Used, Packets, SlotStays, Packet;
      var ih1 := CircNext(head, P_SZ);
      var bIh1 := ReadEnd(ih1, bytes);
      WriteBuf(bIh1, val, bytes);
      WriteEnd(ih1, CircNext(bIh1, B_SZ), bytes + [val]);
    }

    /** The write of the end of the packet under construction. */
    method WriteEnd(ih1: nat, end: nat, ghost bytes: seq<byte>)
      requires Sound() && ih1 == CircNext(head, P_SZ) && end < B_SZ
      modifies this`tail, this`packetStarted, this`udrie, this`wire, this`due, buf, pIdx
      ensures Sound()
      ensures old(Safe()) && Staged(old(Snapshot()), bytes) && end == Behind(old(Snapshot()), |bytes|) ==>
                Onward() && Built(Snapshot(), bytes)
    {
      hide Live, Ordered, Used, Packets, SlotStays, Packet;
      ghost var ok, r := Safe() && Staged(Snapshot(), bytes), Snapshot();
      Interrupts();
      if ok {
        StagedRely(r, Snapshot(), bytes);
        SlotOfHead(Snapshot());
      }
      WriteIdx(ih1, end, bytes);
    }

    /** The end of frame_send and frame_done: seed the boundary after the packet,
        move the head over it, and enable the interrupt. `clobbered` says that the
        seeded slot was the one the interrupt stood at, `flagged` that the ring was
        empty when the head moved.

        Between the last two steps the interrupt may drain the whole ring and turn
        itself off; it is then turned on again with nothing queued. */
    method Dispatch(ghost bytes: seq<byte>) returns (ghost clobbered: bool, ghost flagged: bool)
      requires Sound()
      modifies this`head, this`log, this`tail, this`packetStarted, this`udrie, this`wire, this`due, buf, pIdx
      ensures Sound() && head == CircNext(old(head), P_SZ)
      ensures old(Safe()) && Built(old(Snapshot()), bytes) && bytes != [] ==>
                && (clobbered ==> Count(old(Snapshot())) == 6)
                && (Count(old(Snapshot())) == 0 ==> flagged)
                && (!clobbered ==>
                      && Live(State(), wire, log) && udrie && SendsUntilOn()
                      && Used(Snapshot()) <= Used(old(Snapshot())) + |bytes|
                      && Count(Snapshot()) <= Count(old(Snapshot())) + 1
                      && Seeded(Snapshot()) && log == old(log) + [Sent(bytes, flagged)]
                      && (!old(udrie) ==> Valid()))
    {
      hide Live, Ordered, Used, Built;
      var ih1 := CircNext(head, P_SZ);
      var ih2 := CircNext(ih1, P_SZ);
      clobbered := Seed(ih1, ih2, bytes);
      flagged := PublishAndEnable(ih1, ih2, bytes);
    }

    /** Once the boundary after the packet is seeded. */
    method PublishAndEnable(ih1: nat, ih2: nat, ghost bytes: seq<byte>) returns (ghost flagged: bool)
      requires Sound() && ih1 == CircNext(head, P_SZ) && ih2 == CircNext(ih1, P_SZ)
      modifies this`head, this`log, this`tail, this`packetStarted, this`udrie, this`wire, this`due, buf, pIdx
      ensures Sound() && head == ih1
      ensures old(Safe()) && Built(old(Snapshot()), bytes) && bytes != []
              && Count(old(Snapshot())) <= 5 && old(pIdx[ih2]) == old(pIdx[ih1]) ==>
                && (Count(old(Snapshot())) == 0 ==> flagged)
                && Live(State(), wire, log) && udrie && SendsUntilOn()
                && Used(Snapshot()) <= Used(old(Snapshot())) + |bytes|
                && Count(Snapshot()) <= Count(old(Snapshot())) + 1
                && Seeded(Snapshot()) && log == old(log) + [Sent(bytes, flagged)]
                && (!old(udrie) ==> Valid())
    {
      hide Live, Ordered, Used, Built, Packets, SlotStays;
      ghost var ok := Safe() && Built(Snapshot(), bytes) && bytes != [] && Count(Snapshot()) <= 5 && pIdx[ih2] == pIdx[ih1];
      ghost var r := Snapshot();
      Interrupts();
      if ok {
        SeedRely(r, Snapshot(), bytes);
      }
      flagged := MoveHead(ih1, ih2, bytes);
      r := Snapshot();
      Interrupts();
      if ok {
        SeededRely(r, Snapshot());
      }
      LiveUdrie(State(), wire, log);
      udrie := true;
    }

    /** The write of the boundary after the packet under construction. */
    method Seed(ih1: nat, ih2: nat, ghost bytes: seq<byte>) returns (ghost clobbered: bool)
      requires Sound() && ih1 == CircNext(head, P_SZ) && ih2 == CircNext(ih1, P_SZ)
      modifies this`tail, this`packetStarted, this`udrie, this`wire, this`due, buf, pIdx
      ensures Sound() && clobbered == (ih2 == tail)
      ensures old(Safe()) && Built(old(Snapshot()), bytes) ==>
                && (clobbered ==> Count(old(Snapshot())) == 6)
                && (!clobbered ==>
                      && Onward() && Built(Snapshot(), bytes)
                      && Count(Snapshot()) <= 5 && pIdx[ih2] == pIdx[ih1])
    {
      hide Live, Ordered, Used;
      var end := ReadEnd(ih1, bytes);
      SlotOfHead(Snapshot());
      clobbered := ih2 == tail;
      WriteIdx(ih2, end, bytes);
    }

    /** The write of the head, by which a built packet becomes visible. */
    method MoveHead(ih1: nat, ih2: nat, ghost bytes: seq<byte>) returns (ghost flagged: bool)
      requires Sound() && ih1 == CircNext(head, P_SZ) && ih2 == CircNext(ih1, P_SZ)
      modifies this`head, this`log
      ensures Sound() && head == ih1
      ensures flagged == (Count(old(Snapshot())) == 0)
      ensures old(Safe()) && Built(old(Snapshot()), bytes) && bytes != []
              && Count(old(Snapshot())) <= 5 && pIdx[ih2] == pIdx[ih1] ==>
                && Safe() && log == old(log) + [Sent(bytes, flagged)]
                && Seeded(Snapshot()) && Count(Snapshot()) == Count(old(Snapshot())) + 1
                && Used(Snapshot()) == Used(old(Snapshot())) + |bytes|
    {
      ghost var t := State();
      flagged := Count(Snapshot()) == 0;
      ghost var ok := Safe() && Built(Snapshot(), bytes) && bytes != [] && Count(Snapshot()) <= 5 && pIdx[ih2] == pIdx[ih1];
      head := ih1;
      log := log + [Sent(bytes, flagged)];
      if ok {
        LivePublish(t, wire, old(log), bytes);
        PublishUses(t.ring, bytes);
        assert t.ring.pIdx[ih2 := t.ring.pIdx[ih1]] == t.ring.pIdx;
        assert Snapshot() == Publish(t.ring);
        assert Seeded(Snapshot());
      }
    }

    /** The reads by which frame_send finds out what is free. The tail and its
        boundary are copies that the interrupt may outrun: what is in use is then
        overstated, and by no more than it was at the call. */
    method ReadEnds() returns (ih: nat, bIh: nat, it: nat, bIt: nat)
      requires Sound()
      modifies this`tail, this`packetStarted, this`udrie, this`wire, this`due, buf, pIdx
      ensures Sound() && ih == head && it < P_SZ && bIh < B_SZ && bIt < B_SZ
      ensures old(Safe()) ==>
                && Rely(old(Snapshot()), Snapshot())
                && Onward() && bIh == pIdx[head] && CircNext(ih, P_SZ) != it
                && Used(Snapshot()) <= CircCnt(bIh, bIt, B_SZ) <= Used(old(Snapshot()))
    {
      hide Live, Ordered, Used;
      ghost var ok, r := Safe(), Snapshot();
      ih := head;
      Interrupts();
      bIh := pIdx[ih];
      ghost var r1 := Snapshot();
      Interrupts();
      it := tail;
      if ok {
        RelyTransitive(r, r1, Snapshot());
      }
      r := Snapshot();
      if ok {
        TailConservative(r);
        SlotOfHead(r);
      }
      Interrupts();
      bIt := pIdx[it];
      if ok {
        RelyTransitive(old(Snapshot()), r, Snapshot());
        assert SlotStays(r, Snapshot(), it);
      }
    }

    /** memcpy of `n` bytes of `data`, from its byte `from` on, to the ring at
        `place`. */
    method CopyIn(place: nat, data: seq<byte>, from: nat, n: nat)
      requires Sound() && from + n <= |data| && place + n <= B_SZ
      modifies this`tail, this`packetStarted, this`udrie, this`wire, this`due, buf, pIdx
      ensures Sound()
      ensures old(Safe()) && Staged(old(Snapshot()), data[..from]) && Used(old(Snapshot())) + from + n < B_SZ
              && (n != 0 ==> place == Behind(old(Snapshot()), from)) ==>
                Onward() && Staged(Snapshot(), data[..from + n]) && pIdx[head] == old(pIdx[head])
    {
      hide Live, Ordered, Used;
      ghost var ok := Safe() && Staged(Snapshot(), data[..from]) && Used(Snapshot()) + from + n < B_SZ
                      && (n != 0 ==> place == Behind(Snapshot(), from));
      var i := 0;
      while i < n
        invariant i <= n && Sound()
        invariant ok ==> Onward() && Staged(Snapshot(), data[..from + i]) && pIdx[head] == old(pIdx[head])
      {
        ghost var r := Snapshot();
        Interrupts();
        if ok {
          StagedRely(r, Snapshot(), data[..from + i]);
        }
        WriteBuf(place + i, data[from + i], data[..from + i]);
        assert data[..from + i] + [data[from + i]] == data[..from + i + 1];
        i := i + 1;
      }
    }

    /** The two memcpy calls of frame_send, and the write of the packet's end. */
    method PutData(bIh: nat, ih1: nat, data: seq<byte>, spaceToEnd: nat)
      requires Sound() && bIh < B_SZ && ih1 == CircNext(head, P_SZ)
      requires spaceToEnd <= |data| && bIh + spaceToEnd <= B_SZ && |data| < B_SZ
      modifies this`tail, this`packetStarted, this`udrie, this`wire, this`due, buf, pIdx
      ensures Sound()
      ensures old(Safe()) && bIh == old(pIdx[head])
              && Used(old(Snapshot())) + |data| < B_SZ
              && (spaceToEnd < |data| ==> bIh + spaceToEnd == B_SZ) ==>
                Onward() && Built(Snapshot(), data)
    {
      hide Live, Ordered, Used, Packets, SlotStays, Packet;
      assert data[..0] == [];
      CopyIn(bIh, data, 0, spaceToEnd);
      CopyIn(0, data, spaceToEnd, |data| - spaceToEnd);
      assert data[..|data|] == data;
      WriteEnd(ih1, Mask(bIh + |data|, B_SZ), data);
    }

    /** PBUF_APPEND16, for a packet under construction that holds `bytes`. */
    method AppendCheck(ghost bytes: seq<byte>, first: byte, second: byte)
      requires Sound()
      modifies this`tail, this`packetStarted, this`udrie, this`wire, this`due, buf, pIdx
      ensures Sound()
      ensures old(Safe()) && Built(old(Snapshot()), bytes) && Used(old(Snapshot())) + |bytes| + 2 < B_SZ ==>
                Onward() && Built(Snapshot(), bytes + [first, second])
    {
      hide Live, Ordered, Used, Packets, SlotStays, Packet;
      Append8(first, bytes);
      Append8(second, bytes + [first]);
      assert bytes + [first] + [second] == bytes + [first, second];
    }

    static method CrcOf(data: seq<byte>) returns (crc: bv16)
      ensures crc == Fold(INIT, data)
    {
      hide Update;
      crc := INIT;
      var i := 0;
      while i < |data|
        invariant i <= |data| && crc == Fold(INIT, data[..i])
      {
        assert data[..i + 1] == data[..i] + [data[i]];
        FoldSnoc(INIT, data[..i], data[i]);
        crc := Update(crc, data[i]);
        i := i + 1;
      }
      assert data[..i] == data;
    }

    /** frame_send: `data` is the caller's memory. A packet that is refused leaves
        no trace. One that is accepted is logged with its check bytes, low byte
        first, provided the slot seeded for the next packet was not in use; that can
        only happen if six packets were queued at the call. The interrupt is left
        enabled with nothing queued exactly if it drained the ring after the head
        moved. */
    method FrameSend(data: seq<byte>) returns (ghost sent: bool, ghost clobbered: bool, ghost flagged: bool)
      requires Valid() && |data| < 256
      modifies this`head, this`log, this`tail, this`packetStarted, this`udrie, this`wire, this`due, buf, pIdx
      ensures Sound()
      ensures |data| + 2 <= 63 - old(Used(Snapshot())) ==> sent
      ensures sent ==> |data| + 2 <= 63
      ensures sent <==> head != old(head)
      ensures !sent ==> Valid() && Onward() && log == old(log) && !clobbered && (old(Building()) ==> Building())
      ensures clobbered ==> |old(Queue())| == 6
      ensures sent && !clobbered ==>
                && Live(State(), wire, log) && udrie && SendsUntilOn()
                && log == old(log) + [Sent(Stored(data), flagged)]
                && (old(Queue()) == [] ==> flagged && Valid() && wire == old(wire))
                && Used(Snapshot()) <= old(Used(Snapshot())) + |data| + 2
                && Count(Snapshot()) <= old(Count(Snapshot())) + 1
                && Seeded(Snapshot()) && (Valid() <==> Queued(Snapshot()) != [])
    {
      hide Live, Ordered, Used, Packets, SlotStays, Packet, Built, Rely;
      var ih, bIh, it, bIt := ReadEnds();
      var nbytes := |data|;
      var space := CircSpace(bIh, bIt, B_SZ);
      sent, clobbered, flagged := false, false, false;
      if old(Building()) && frameStartFlag {
        BuiltRely(old(Snapshot()), Snapshot(), built);
      }
      if nbytes + FRAME_CRC_SZ > space {
        return;
      }
      var ih1 := CircNext(ih, P_SZ);
      if ih1 == it {
        return;
      }
      var spaceToEnd := Min(CircSpaceToEnd(bIh, bIt, B_SZ), nbytes);
      sent := true;
      clobbered, flagged := Accept(bIh, ih1, data, spaceToEnd);
    }

    /** frame_send once it has found room. */
    method Accept(bIh: nat, ih1: nat, data: seq<byte>, spaceToEnd: nat)
      returns (ghost clobbered: bool, ghost flagged: bool)
      requires Sound() && Safe() && bIh == pIdx[head] && ih1 == CircNext(head, P_SZ)
      requires Used(Snapshot()) + |data| + 2 < B_SZ
      requires spaceToEnd <= |data| && bIh + spaceToEnd <= B_SZ && (spaceToEnd < |data| ==> bIh + spaceToEnd == B_SZ)
      modifies this`head, this`log, this`tail, this`packetStarted, this`udrie, this`wire, this`due, buf, pIdx
      ensures Sound() && head == ih1
      ensures clobbered ==> Count(old(Snapshot())) == 6
      ensures !clobbered ==>
                && Live(State(), wire, log) && udrie && SendsUntilOn()
                && log == old(log) + [Sent(Stored(data), flagged)]
                && (Count(old(Snapshot())) == 0 ==> flagged) && (!old(udrie) ==> Valid())
                && Used(Snapshot()) <= old(Used(Snapshot())) + |data| + 2
                && Count(Snapshot()) <= old(Count(Snapshot())) + 1
                && Seeded(Snapshot())
    {
      hide Live, Ordered, Used, Packets, SlotStays, Packet, Built;
      var crc := CrcOf(data);
      PutData(bIh, ih1, data, spaceToEnd);
      AppendCheck(data, Lo8(crc), Hi8(crc));
      clobbered, flagged := Dispatch(Stored(data));
    }

    /** The read of `tx.p_idx[tx.tail]`, two accesses. */
    method ReadTail() returns (bIt: nat)
      requires Sound()
      modifies this`tail, this`packetStarted, this`udrie, this`wire, this`due, buf, pIdx
      ensures Sound() && bIt < B_SZ
      ensures old(Safe()) ==>
                && Rely(old(Snapshot()), Snapshot()) && Onward()
                && Used(Snapshot()) <= CircCnt(pIdx[head], bIt, B_SZ) <= Used(old(Snapshot()))
    {
      hide Live, Ordered, Used;
      ghost var ok := Safe();
      var it := tail;
      ghost var r := Snapshot();
      if ok {
        TailConservative(r);
        SlotOfHead(r);
      }
      Interrupts();
      bIt := pIdx[it];
      if ok {
        assert SlotStays(r, Snapshot(), it);
      }
    }

    /** A packet under construction holds what was appended, and once something was
        appended there is room for its check bytes. */
    ghost predicate Building()
      reads this, buf, pIdx
    {
      frameStartFlag ==>
        && Safe() && Built(Snapshot(), built)
        && Count(Snapshot()) <= 5
        && frameCrcTemp == Fold(INIT, built)
        && (built != [] ==> Used(Snapshot()) + |built| + FRAME_CRC_SZ < B_SZ)
    }

    /** frame_start */
    method FrameStart() returns (ghost started: bool)
      requires Valid()
      modifies this`frameStartFlag, this`frameCrcTemp, this`built
      modifies this`tail, this`packetStarted, this`udrie, this`wire, this`due, buf, pIdx
      ensures Valid() && Onward()
      ensures |old(Queue())| <= 5 ==> started
      ensures started ==> frameStartFlag && built == [] && Building()
      ensures !started ==>
                && frameStartFlag == old(frameStartFlag) && built == old(built)
                && (old(Building()) ==> Building())
    {
      hide Live, Ordered, Used, Packets, SlotStays, Packet;
      var h := head;
      ghost var r := Snapshot();
      Interrupts();
      if CircSpace(h, tail, P_SZ) < FRAME_CRC_SZ {
        started := false;
        if old(Building()) && frameStartFlag {
          BuiltRely(r, Snapshot(), built);
        }
        return;
      }
      started := true;
      frameStartFlag := true;
      built := [];
      StartBuilt();
      frameCrcTemp := INIT;
    }

    /** The packet under construction starts where the last one ends. */
    method StartBuilt()
      requires Valid()
      modifies this`tail, this`packetStarted, this`udrie, this`wire, this`due, buf, pIdx
      ensures Onward() && Valid() && Sound() && Built(Snapshot(), [])
    {
      hide Live, Ordered, Used, Packets, SlotStays, Packet;
      Interrupts();
      var b := pIdx[head];
      Interrupts();
      SlotOfHead(Snapshot());
      WriteIdx(CircNext(head, P_SZ), b, []);
    }

    /** frame_append_u8: the byte is appended if it fits, otherwise the packet under
        construction is dropped. */
    method FrameAppendU8(x: byte)
      requires Valid() && Building()
      modifies this`frameStartFlag, this`frameCrcTemp, this`built
      modifies this`tail, this`packetStarted, this`udrie, this`wire, this`due, buf, pIdx
      ensures Valid() && Building() && Onward()
      ensures frameStartFlag ==> old(frameStartFlag) && built == old(built) + [x]
      ensures old(frameStartFlag) && !frameStartFlag ==> Seeded(Snapshot())
      ensures old(frameStartFlag) && old(Used(Snapshot())) + |old(built)| + 3 < B_SZ ==> frameStartFlag
    {
      hide Live, Ordered, Used, Packets, SlotStays, Packet, Update, Fold, Built;
      if !frameStartFlag {
        return;
      }
      var fits := HasSpace(1);
      if !fits {
        return;
      }
      FoldSnoc(INIT, built, x);
      frameCrcTemp := Update(frameCrcTemp, x);
      Append8(x, built);
      built := built + [x];
    }

    /** frame_append_u16: both bytes, the high one first, or none. */
    method FrameAppendU16(x: bv16)
      requires Valid() && Building()
      modifies this`frameStartFlag, this`frameCrcTemp, this`built
      modifies this`tail, this`packetStarted, this`udrie, this`wire, this`due, buf, pIdx
      ensures Valid() && Building() && Onward()
      ensures frameStartFlag ==> old(frameStartFlag) && built == old(built) + [Hi8(x), Lo8(x)]
      ensures old(frameStartFlag) && !frameStartFlag ==> Seeded(Snapshot())
      ensures old(frameStartFlag) && old(Used(Snapshot())) + |old(built)| + 4 < B_SZ ==> frameStartFlag
    {
      hide Live, Ordered, Used, Packets, SlotStays, Packet, Update, Hi8, Lo8, Fold, Built;
      if !frameStartFlag {
        return;
      }
      var fits := HasSpace(2);
      if !fits {
        return;
      }
      AppendCheck(built, Hi8(x), Lo8(x));
      FoldTwo(INIT, built, Hi8(x), Lo8(x));
      frameCrcTemp := Update(frameCrcTemp, Hi8(x));
      frameCrcTemp := Update(frameCrcTemp, Lo8(x));
      built := built + [Hi8(x), Lo8(x)];
    }

    /** The space check of the appends: `n` bytes and the check bytes must fit, else
        the packet is dropped. */
    method HasSpace(n: nat) returns (fits: bool)
      requires Valid() && Building() && frameStartFlag && n <= 2
      modifies this`frameStartFlag, this`tail, this`packetStarted, this`udrie, this`wire, this`due, buf, pIdx
      ensures Valid() && Building() && Onward() && frameStartFlag == fits
      ensures fits ==> Used(Snapshot()) + |built| + n + FRAME_CRC_SZ < B_SZ
      ensures !fits ==> old(Used(Snapshot())) + |built| + n + FRAME_CRC_SZ >= B_SZ && Seeded(Snapshot())
    {
      hide Live, Ordered, Used, Packets, SlotStays, Packet, Staged, Behind;
      var ih1 := CircNext(head, P_SZ);
      var bIh1 := ReadEnd(ih1, built);
      ghost var r := Snapshot();
      var bIt := ReadTail();
      BuiltRely(r, Snapshot(), built);
      SpaceBehind(r, Snapshot(), |built|, bIt);
      fits := CircSpace(bIh1, bIt, B_SZ) >= n + FRAME_CRC_SZ;
      if !fits {
        DropBuilt(ih1);
      }
    }

    /** FRAME_DROP */
    method DropBuilt(ih1: nat)
      requires Valid() && ih1 == CircNext(head, P_SZ)
      modifies this`frameStartFlag, this`tail, this`packetStarted, this`udrie, this`wire, this`due, buf, pIdx
      ensures Onward() && Valid() && Sound() && !frameStartFlag && Seeded(Snapshot())
    {
      hide Live, Ordered, Used, Packets, SlotStays, Packet;
      var b := pIdx[head];
      Interrupts();
      SlotOfHead(Snapshot());
      assert Staged(Snapshot(), []);
      WriteIdx(ih1, b, []);
      frameStartFlag := false;
    }

    /** frame_done: the packet is published if anything was appended to it, or if
        there is room for the check bytes; these come high byte first. */
    method FrameDone() returns (ghost flagged: bool)
      requires Valid() && Building()
      modifies this`frameStartFlag
      modifies this`head, this`log, this`tail, this`packetStarted, this`udrie, this`wire, this`due, buf, pIdx
      ensures Sound() && !frameStartFlag
      ensures !old(frameStartFlag) ==> Valid() && Onward() && log == old(log) && head == old(head)
      ensures old(frameStartFlag) && (built != [] || old(Used(Snapshot())) + FRAME_CRC_SZ < B_SZ) ==>
                && Live(State(), wire, log) && udrie && SendsUntilOn()
                && log == old(log) + [Sent(built + [CheckBytes(built)[1], CheckBytes(built)[0]], flagged)]
                && (old(Queue()) == [] ==> flagged && Valid() && wire == old(wire))
                && Seeded(Snapshot()) && (Valid() <==> Queued(Snapshot()) != [])
    {
      hide Live, Ordered, Used, Hi8, Lo8;
      flagged := false;
      if !frameStartFlag {
        return;
      }
      frameStartFlag := false;
      AppendCheck(built, Hi8(frameCrcTemp), Lo8(frameCrcTemp));
      ghost var clobbered;
      clobbered, flagged := Dispatch(built + [Hi8(frameCrcTemp), Lo8(frameCrcTemp)]);
    }
  }

  /** The packets of a ring, if they are in order. */
  ghost function Queued(r: Ring): seq<seq<byte>> {
    if Ok(r) then Packets(r) else []
  }
}
