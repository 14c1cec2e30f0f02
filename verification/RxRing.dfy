/** Reception on the AVR (avr/frame_async.c, the first half): the receive
    interrupt and the functions by which the main loop reads packets, over one
    packet ring that they share without locks.

    The interrupt is one atomic step. The main-loop functions are interrupted at
    every access to shared memory. The ghost `trace` lists what happened in the
    order in which it took effect, and `Valid` says that the ring holds exactly
    what the decoder of RxSpec has after that trace: so every method that keeps
    `Valid` refines that decoder under every interleaving. */
module RxRing {
  import opened Crc
  import opened Wire
  import opened PacketBuf
  import RxSpec

  /** The static variables of the interrupt handler. */
  datatype Flags = Flags(isEscaped: bool, recvStarted: bool, crc: bv16)

  predicate Refines(r: Ring, f: Flags, a: RxSpec.Rx) {
    && RxSpec.Valid(a)
    && OpenOk(r) && Packets(r) == RxSpec.Queue(a) && OpenBytes(r) == a.cur
    && f.isEscaped == a.escaped && f.recvStarted == a.started
    && (f.recvStarted ==> f.crc == Fold(INIT, a.cur))
  }

  // ------------------------------------------------------------------
  // What the tests of the code mean
  // ------------------------------------------------------------------

  lemma OpenIsEmpty(r: Ring)
    requires OpenOk(r)
    ensures r.pIdx[r.head] == r.pIdx[CircNext(r.head, P_SZ)] <==> OpenBytes(r) == []
  {
    SlotOfHead(r);
  }

  lemma NoSlot(r: Ring)
    requires OpenOk(r)
    ensures CircNext(CircNext(r.head, P_SZ), P_SZ) == r.tail <==> Count(r) == 6
  {
    SlotOfHead(r);
  }

  lemma NoRoom(r: Ring)
    requires OpenOk(r)
    ensures r.pIdx[r.tail] == CircNext(r.pIdx[CircNext(r.head, P_SZ)], B_SZ) <==> Off(r, Count(r) + 1) == B_SZ - 1
  {
    SlotOfHead(r);
  }

  lemma {:induction false} TotalUpTo(q: seq<seq<byte>>, k: nat)
    requires k < |q|
    ensures RxSpec.Total(q[..k + 1]) == RxSpec.Total(q[..k]) + |q[k]|
    decreases |q|
  {
    assert q[..k + 1][1..] == q[1..][..k];
    if k != 0 {
      assert q[..k][1..] == q[1..][..k - 1];
      TotalUpTo(q[1..], k - 1);
    }
  }

  lemma {:induction false} PacketsFill(r: Ring, k: nat)
    requires Ok(r) && k <= Count(r)
    ensures RxSpec.Total(Packets(r)[..k]) == Off(r, k)
    decreases k
  {
    hide Off, Count, Span;
    if k != 0 {
      PacketsFill(r, k - 1);
      TotalUpTo(Packets(r), k - 1);
    }
  }

  /** The bytes in the ring are those of its packets. */
  lemma RingTotal(r: Ring)
    requires OpenOk(r)
    ensures RxSpec.Total(Packets(r)) + |OpenBytes(r)| == Off(r, Count(r) + 1)
  {
    PacketsFill(r, Count(r));
    assert Packets(r)[..Count(r)] == Packets(r);
  }

  // ------------------------------------------------------------------
  // The branches of the interrupt refine the decoder
  // ------------------------------------------------------------------

  lemma RefinesDrop(r: Ring, f: Flags, a: RxSpec.Rx)
    requires Refines(r, f, a)
    ensures Refines(Rewind(r), Flags(false, false, INIT), RxSpec.Drop(a))
  {
    RewindEmpties(r);
    RxSpec.SameQueue(a, RxSpec.Drop(a));
  }

  lemma RefinesIdleFlag(r: Ring, f: Flags, a: RxSpec.Rx)
    requires Refines(r, f, a) && OpenBytes(r) == []
    ensures Refines(r, Flags(false, true, INIT), RxSpec.OnFlag(a))
  {
    RxSpec.SameQueue(a, RxSpec.OnFlag(a));
  }

  lemma RefinesBadFlag(r: Ring, f: Flags, a: RxSpec.Rx)
    requires Refines(r, f, a) && OpenBytes(r) != [] && (Count(r) == 6 || f.crc != 0)
    ensures Refines(Rewind(r), Flags(false, true, INIT), RxSpec.OnFlag(a))
  {
    RewindEmpties(r);
    RxSpec.SameQueue(a, RxSpec.OnFlag(a));
  }

  lemma QueueGrows(a: RxSpec.Rx, p: seq<byte>)
    requires RxSpec.Valid(a)
    ensures var b := a.(published := a.published + [p]);
            RxSpec.Valid(b) && RxSpec.Queue(b) == RxSpec.Queue(a) + [p]
  {
    var b := a.(published := a.published + [p]);
    if a.popped < |a.published| {
      assert b.published[a.popped + 1..] == a.published[a.popped + 1..] + [p];
    } else {
      assert b.published[a.popped + 1..] == [];
    }
  }

  lemma RefinesGoodFlag(r: Ring, f: Flags, a: RxSpec.Rx)
    requires Refines(r, f, a) && OpenBytes(r) != [] && Count(r) != 6 && f.crc == 0
    ensures Refines(Publish(Shorten(r, FRAME_CRC_SZ)), Flags(false, true, INIT), RxSpec.OnFlag(a))
  {
    hide Shorten, Publish, OpenBytes, Packets, RxSpec.Queue, Ordered, CheckBytes, Off;
    ChecksIff(a.cur);
    ShortenTrims(r, FRAME_CRC_SZ);
    PublishAppends(Shorten(r, FRAME_CRC_SZ));
    QueueGrows(a, Trim(a.cur));
    RxSpec.SameQueue(a.(published := a.published + [Trim(a.cur)]), RxSpec.OnFlag(a));
  }

  lemma RefinesEscape(r: Ring, f: Flags, a: RxSpec.Rx)
    requires Refines(r, f, a) && f.recvStarted
    ensures Refines(r, f.(isEscaped := true), RxSpec.OnByte(a, ESC))
  {
    RxSpec.SameQueue(a, RxSpec.OnByte(a, ESC));
  }

  lemma RefinesData(r: Ring, f: Flags, a: RxSpec.Rx, d: byte)
    requires Refines(r, f, a) && f.recvStarted
    ensures Off(r, Count(r) + 1) != B_SZ - 1 ==>
              Refines(Store(r, d), Flags(false, true, Update(f.crc, d)), RxSpec.OnData(a, d))
    ensures Off(r, Count(r) + 1) == B_SZ - 1 ==>
              Refines(Rewind(r), Flags(false, false, INIT), RxSpec.OnData(a, d))
  {
    hide Update, Off, Packets, OpenBytes, Store, Rewind, RxSpec.Queue, RxSpec.Total;
    var b := RxSpec.OnData(a, d);
    RxSpec.SameQueue(a, b);
    RingTotal(r);
    if Off(r, Count(r) + 1) != B_SZ - 1 {
      StoreAppends(r, d);
      FoldSnoc(INIT, a.cur, d);
    } else {
      RewindEmpties(r);
    }
  }

  /** The ring and the flags after one interrupt. */
  datatype Isr = Isr(ring: Ring, flags: Flags)

  /** The ring after a flag. */
  function FlagRing(r: Ring, crc: bv16): Ring
    requires InRange(r)
  {
    var ih1 := CircNext(r.head, P_SZ);
    if r.pIdx[r.head] == r.pIdx[ih1] then r
    else if CircNext(ih1, P_SZ) == r.tail || crc != 0 then Rewind(r)
    else Publish(Shorten(r, FRAME_CRC_SZ))
  }

  predicate HasRoom(r: Ring)
    requires InRange(r)
  {
    r.pIdx[r.tail] != CircNext(r.pIdx[CircNext(r.head, P_SZ)], B_SZ)
  }

  function OnInterrupt(r: Ring, f: Flags, error: bool, data: byte): Isr
    requires InRange(r)
  {
    var dropped := Isr(Rewind(r), Flags(false, false, INIT));
    if error then dropped
    else if data == FLAG then Isr(FlagRing(r, f.crc), Flags(false, true, INIT))
    else if !f.recvStarted then Isr(r, f)
    else if data == RESET then dropped
    else if data == ESC then Isr(r, f.(isEscaped := true))
    else
      var d := if f.isEscaped then Masked(data) else data;
      if HasRoom(r) then Isr(Store(r, d), Flags(false, true, Update(f.crc, d))) else dropped
  }

  lemma RefinesFlag(r: Ring, f: Flags, a: RxSpec.Rx)
    requires Refines(r, f, a)
    ensures Refines(FlagRing(r, f.crc), Flags(false, true, INIT), RxSpec.OnFlag(a))
  {
    assert OpenOk(r);
    OpenIsEmpty(r);
    NoSlot(r);
    hide Refines, Rewind, Shorten, Publish, OpenBytes, Count, CircNext, RxSpec.OnFlag;
    if OpenBytes(r) == [] {
      RefinesIdleFlag(r, f, a);
    } else if Count(r) == 6 || f.crc != 0 {
      RefinesBadFlag(r, f, a);
    } else {
      RefinesGoodFlag(r, f, a);
    }
  }

  function EventOf(error: bool, data: byte): RxSpec.Event {
    if error then RxSpec.LineError else RxSpec.Byte(data)
  }

  /** Whatever arrives, the interrupt does to the ring what the decoder does to its
      packets. */
  lemma InterruptRefines(r: Ring, f: Flags, a: RxSpec.Rx, error: bool, data: byte)
    requires Refines(r, f, a)
    ensures var s := OnInterrupt(r, f, error, data);
            Refines(s.ring, s.flags, RxSpec.Step(a, EventOf(error, data)))
  {
    assert OpenOk(r);
    FlagsAgree(r, f, a);
    hide Refines, FlagRing, Rewind, Store, Update, Count, Off, Ok, RxSpec.OnFlag, RxSpec.OnData, RxSpec.Drop, OpenBytes;
    if error {
      RefinesDrop(r, f, a);
    } else if data == FLAG {
      RefinesFlag(r, f, a);
    } else if !f.recvStarted {
    } else if data == RESET {
      RefinesDrop(r, f, a);
    } else if data == ESC {
      RefinesEscape(r, f, a);
    } else {
      NoRoom(r);
      RefinesData(r, f, a, if f.isEscaped then Masked(data) else data);
    }
  }

  lemma FlagsAgree(r: Ring, f: Flags, a: RxSpec.Rx)
    requires Refines(r, f, a)
    ensures RxSpec.Valid(a) && f.recvStarted == a.started && f.isEscaped == a.escaped
  {}

  /** The interrupt does not move the consumer's boundary. */
  lemma InterruptKeepsTail(r: Ring, f: Flags, error: bool, data: byte)
    requires OpenOk(r)
    ensures var s := OnInterrupt(r, f, error, data).ring;
            s.tail == r.tail && s.pIdx[r.tail] == r.pIdx[r.tail]
  {
    SlotOfHead(r);
    NoSlot(r);
    hide Update;
  }

  // ------------------------------------------------------------------
  // The consumer's operations refine theirs
  // ------------------------------------------------------------------

  lemma RefinesTake(r: Ring, f: Flags, a: RxSpec.Rx, n: nat)
    requires Refines(r, f, a) && Count(r) != 0 && n <= |Packets(r)[0]|
    ensures Refines(Advance(r, n), f, RxSpec.Step(a, RxSpec.Take(n)))
  {
    hide Advance, Packets, OpenBytes, Ok, RxSpec.Queue, RxSpec.Step;
    AdvanceReads(r, n);
    RxSpec.TakeReads(a, n);
  }

  lemma QueueCount(r: Ring, f: Flags, a: RxSpec.Rx)
    requires Refines(r, f, a)
    ensures Count(r) == |RxSpec.Queue(a)|
  {}

  lemma RefinesNext(r: Ring, f: Flags, a: RxSpec.Rx)
    requires Refines(r, f, a) && Count(r) != 0
    ensures Refines(Leave(r), f, RxSpec.Step(a, RxSpec.Next))
  {
    hide Leave, Packets, OpenBytes, Ok, RxSpec.Queue;
    assert RxSpec.Step(a, RxSpec.Next) == RxSpec.OnNext(a);
    LeavePops(r);
    RxSpec.QueueParts(a);
    RxSpec.NextBringsUp(a);
  }

  // ------------------------------------------------------------------
  // Interference
  // ------------------------------------------------------------------

  predicate IsConsumer(e: RxSpec.Event) { e.Take? || e.Next? }

  function Mark(e: RxSpec.Event): seq<RxSpec.Event> {
    if IsConsumer(e) then [e] else []
  }

  /** What the consumer did in a trace. */
  function Consumed(t: seq<RxSpec.Event>): seq<RxSpec.Event>
    decreases |t|
  {
    if |t| == 0 then [] else Mark(t[0]) + Consumed(t[1..])
  }

  lemma {:induction false} ConsumedAppend(t: seq<RxSpec.Event>, u: seq<RxSpec.Event>)
    ensures Consumed(t + u) == Consumed(t) + Consumed(u)
    decreases |t|
  {
    hide Mark;
    if |t| == 0 {
      assert t + u == u;
    } else {
      assert (t + u)[1..] == t[1..] + u;
      ConsumedAppend(t[1..], u);
      assert Mark(t[0]) + (Consumed(t[1..]) + Consumed(u)) == (Mark(t[0]) + Consumed(t[1..])) + Consumed(u);
    }
  }

  /** And what the interrupt did. */
  function Arrived(t: seq<RxSpec.Event>): seq<RxSpec.Event>
    decreases |t|
  {
    if |t| == 0 then [] else (if IsConsumer(t[0]) then [] else [t[0]]) + Arrived(t[1..])
  }

  lemma {:induction false} ArrivedSnoc(t: seq<RxSpec.Event>, e: RxSpec.Event)
    ensures Arrived(t + [e]) == Arrived(t) + if IsConsumer(e) then [] else [e]
    decreases |t|
  {
    hide IsConsumer;
    if |t| == 0 {
      assert t + [e] == [e] && [e][1..] == [];
    } else {
      assert (t + [e])[1..] == t[1..] + [e];
      ArrivedSnoc(t[1..], e);
    }
  }

  lemma NotArrived(t: seq<RxSpec.Event>, e: RxSpec.Event)
    requires IsConsumer(e)
    ensures Arrived(t + [e]) == Arrived(t)
  {
    ArrivedSnoc(t, e);
  }

  lemma NextArrives(t: seq<RxSpec.Event>, coming: seq<Sample>)
    requires coming != []
    ensures Arrived(t + [EventOf(coming[0].error, coming[0].data)]) + Samples(coming[1..])
         == Arrived(t) + Samples(coming)
  {
    hide *;
    var e := EventOf(coming[0].error, coming[0].data);
    SamplesHead(coming);
    ArrivedSnoc(t, e);
    Regroup(Arrived(t), e, Samples(coming[1..]));
  }

  lemma SamplesHead(coming: seq<Sample>)
    requires coming != []
    ensures var e := EventOf(coming[0].error, coming[0].data);
            Samples(coming) == [e] + Samples(coming[1..]) && !IsConsumer(e)
  {
    hide Samples;
    assert coming == [coming[0]] + coming[1..];
    SamplesOne(coming[0], coming[1..]);
  }

  lemma SamplesOne(e: Sample, es: seq<Sample>)
    ensures Samples([e] + es) == [EventOf(e.error, e.data)] + Samples(es)
  {
    assert ([e] + es)[1..] == es;
  }

  lemma Regroup<T>(x: seq<T>, e: T, y: seq<T>)
    ensures (x + [e]) + y == x + ([e] + y)
  {}

  /** `t` went on to become `u`, the consumer having done exactly `ops`. */
  predicate WentOn(t: seq<RxSpec.Event>, u: seq<RxSpec.Event>, ops: seq<RxSpec.Event>) {
    t <= u && Consumed(u[|t|..]) == ops
  }

  lemma WentOnStep(t: seq<RxSpec.Event>, u: seq<RxSpec.Event>, ops: seq<RxSpec.Event>, e: RxSpec.Event)
    requires WentOn(t, u, ops)
    ensures WentOn(t, u + [e], if IsConsumer(e) then ops + [e] else ops)
  {
    assert (u + [e])[|t|..] == u[|t|..] + [e];
    ConsumedAppend(u[|t|..], [e]);
    assert [e][1..] == [];
  }

  lemma WentOnTrans(t: seq<RxSpec.Event>, u: seq<RxSpec.Event>, v: seq<RxSpec.Event>,
                    ops: seq<RxSpec.Event>, ops': seq<RxSpec.Event>)
    requires WentOn(t, u, ops) && WentOn(u, v, ops')
    ensures WentOn(t, v, ops + ops')
    ensures ops == [] ==> WentOn(t, v, ops')
  {
    assert [] + ops' == ops';
    assert v[|t|..] == u[|t|..] + v[|u|..];
    ConsumedAppend(u[|t|..], v[|u|..]);
  }

  /** The interrupt leaves the packets that are queued alone. */
  lemma {:induction false} InterruptsOnlyAdd(a: RxSpec.Rx, t: seq<RxSpec.Event>)
    requires RxSpec.Valid(a) && Consumed(t) == []
    ensures var b := RxSpec.Run(a, t);
            && a.published <= b.published && b.popped == a.popped && b.readCt == a.readCt
            && RxSpec.Queue(a) <= RxSpec.Queue(b)
    decreases |t|
  {
    hide RxSpec.Step, RxSpec.Queue, RxSpec.Valid;
    if |t| != 0 {
      assert !IsConsumer(t[0]) && Consumed(t[1..]) == [];
      var b := RxSpec.Step(a, t[0]);
      RxSpec.InterruptKeepsPlace(a, t[0]);
      QueueExtends(a, b);
      InterruptsOnlyAdd(b, t[1..]);
    }
  }

  lemma QueueExtends(a: RxSpec.Rx, b: RxSpec.Rx)
    requires RxSpec.Valid(a) && RxSpec.Valid(b)
    requires a.published <= b.published && b.popped == a.popped && b.readCt == a.readCt
    ensures RxSpec.Queue(a) <= RxSpec.Queue(b)
  {
    if a.popped < |a.published| {
      assert a.published[a.popped + 1..] <= b.published[a.popped + 1..];
    }
  }

  // ------------------------------------------------------------------
  // Packets without payload
  // ------------------------------------------------------------------

  /** Moving the byte pointer is a read exactly if there is a byte to read. Past the
      end of an empty packet it leaves boundaries that are out of order, if another
      packet follows, and otherwise a packet of 63 bytes that never came. */
  lemma BumpIff(r: Ring)
    requires Ok(r) && Packets(r) != []
    ensures var s := Advance(r, 1);
            && (Ok(s) && Packets(s) == [if Packets(r)[0] == [] then [] else Packets(r)[0][1..]] + Packets(r)[1..]
                <==> Packets(r)[0] != [])
            && (Packets(r)[0] == [] ==> CircCnt(s.pIdx[CircNext(s.tail, P_SZ)], s.pIdx[s.tail], B_SZ) == B_SZ - 1)
  {
    FirstPacket(r);
    SlotOfHead(r);
    if Packets(r)[0] != [] {
      AdvanceReads(r, 1);
    } else {
      var s := Advance(r, 1);
      assert Slot(s, 1) == Slot(r, 1) == CircNext(r.tail, P_SZ);
      assert Off(s, 1) == B_SZ - 1;
      if Ok(s) {
        assert |Packets(s)[0]| == B_SZ - 1;
      }
    }
  }

  /** What an interrupt finds: a byte and whether it has a line error. */
  datatype Sample = Sample(error: bool, data: byte)

  function Samples(es: seq<Sample>): seq<RxSpec.Event>
    decreases |es|
  {
    if |es| == 0 then [] else [EventOf(es[0].error, es[0].data)] + Samples(es[1..])
  }

  function StrayByte(b: byte): seq<Sample> {
    [Sample(true, 0)] + ([Sample(false, FLAG)] + ([Sample(false, b)] + []))
  }

  const EMPTY_FRAME: seq<Sample> :=
    [Sample(false, FLAG)] + ([Sample(false, 0xff)] + ([Sample(false, 0xff)] + ([Sample(false, FLAG)] + [])))

  lemma RunCons(a: RxSpec.Rx, e: Sample, es: seq<Sample>)
    requires RxSpec.Valid(a)
    ensures RxSpec.Run(a, Samples([e] + es)) == RxSpec.Run(RxSpec.Step(a, EventOf(e.error, e.data)), Samples(es))
  {
    hide RxSpec.Step;
    assert ([e] + es)[1..] == es;
    assert Samples([e] + es)[1..] == Samples(es);
  }

  lemma RunNone(a: RxSpec.Rx)
    requires RxSpec.Valid(a)
    ensures RxSpec.Run(a, Samples([])) == a
  {}

  /** A decoder within a frame of which `cur` is stored, and with nothing queued. */
  predicate Alone(a: RxSpec.Rx, cur: seq<byte>) {
    RxSpec.Valid(a) && a.popped == |a.published| && a.started && !a.escaped && a.cur == cur
  }

  lemma AloneFlag(a: RxSpec.Rx)
    requires RxSpec.Valid(a) && a.popped == |a.published| && !Checks(a.cur)
    ensures Alone(RxSpec.Step(a, RxSpec.Byte(FLAG)), [])
  {
    RxSpec.StepByte(a, FLAG);
    hide Checks;
  }

  lemma AloneByte(a: RxSpec.Rx, cur: seq<byte>, b: byte)
    requires Alone(a, cur) && |cur| <= 1 && !EscCheck(b)
    ensures Alone(RxSpec.Step(a, RxSpec.Byte(b)), cur + [b])
  {
    RxSpec.StepByte(a, b);
  }

  lemma AlonePublished(a: RxSpec.Rx)
    requires Alone(a, [0xff, 0xff])
    ensures RxSpec.Queue(RxSpec.Step(a, RxSpec.Byte(FLAG))) == [[]]
  {
    EmptyFrame();
    RxSpec.StepByte(a, FLAG);
    hide Checks;
  }

  /** From every state with an empty queue: a line error, a flag and a plain byte
      leave the queue empty and that byte behind it; then a flag, a frame without
      payload and its flag drop the byte and queue an empty packet. */
  lemma EmptyPacketOvertakes(a: RxSpec.Rx, b: byte)
    requires RxSpec.Valid(a) && RxSpec.Queue(a) == [] && !EscCheck(b)
    ensures var a1 := RxSpec.Run(a, Samples(StrayByte(b)));
            var a2 := RxSpec.Run(a1, Samples(EMPTY_FRAME));
            RxSpec.Queue(a1) == [] && a1.cur == [b] && RxSpec.Queue(a2) == [[]]
  {
    StrayByteStored(a, b);
    var a1 := RxSpec.Run(a, Samples(StrayByte(b)));
    ChecksIff([b]);
    RxSpec.QueueParts(a1);
    hide RxSpec.Run, RxSpec.Queue, Samples, StrayByte, Checks;
    EmptyFrameQueued(a1);
  }

  lemma StrayByteStored(a: RxSpec.Rx, b: byte)
    requires RxSpec.Valid(a) && RxSpec.Queue(a) == [] && !EscCheck(b)
    ensures Alone(RxSpec.Run(a, Samples(StrayByte(b))), [b])
  {
    RxSpec.QueueParts(a);
    NothingChecks();
    hide RxSpec.Run, RxSpec.Queue, Samples, Checks, EscCheck;
    var x, y, z := Sample(true, 0), Sample(false, FLAG), Sample(false, b);
    var s1 := RxSpec.Step(a, RxSpec.LineError);
    assert s1 == RxSpec.Drop(a);
    hide RxSpec.Step;
    var s2 := RxSpec.Step(s1, RxSpec.Byte(FLAG));
    RunCons(a, x, [y] + ([z] + []));
    RunCons(s1, y, [z] + []);
    RunCons(s2, z, []);
    RunNone(RxSpec.Step(s2, RxSpec.Byte(b)));
    AloneFlag(s1);
    AloneByte(s2, [], b);
    assert [] + [b] == [b];
  }

  lemma NothingChecks()
    ensures !Checks([])
  {}

  lemma EmptyFrameQueued(a: RxSpec.Rx)
    requires Alone(a, a.cur) && !Checks(a.cur)
    ensures RxSpec.Queue(RxSpec.Run(a, Samples(EMPTY_FRAME))) == [[]]
  {
    PlainBits();
    hide RxSpec.Run, RxSpec.Queue, RxSpec.Step, Samples, Checks, EscCheck;
    var flag, ff := Sample(false, FLAG), Sample(false, 0xff);
    var s1 := RxSpec.Step(a, RxSpec.Byte(FLAG));
    AloneFlag(a);
    var s2 := RxSpec.Step(s1, RxSpec.Byte(0xff));
    AloneByte(s1, [], 0xff);
    var s3 := RxSpec.Step(s2, RxSpec.Byte(0xff));
    assert [] + [0xff as byte] == [0xff] && [0xff as byte] + [0xff] == [0xff, 0xff];
    AloneByte(s2, [0xff], 0xff);
    AlonePublished(s3);
    RunCons(a, flag, [ff] + ([ff] + ([flag] + [])));
    RunCons(s1, ff, [ff] + ([flag] + []));
    RunCons(s2, ff, [flag] + []);
    RunCons(s3, flag, []);
    RunNone(RxSpec.Step(s3, RxSpec.Byte(FLAG)));
  }

  lemma PlainBits()
    ensures !EscCheck(0xff)
  {}

  // ------------------------------------------------------------------
  // frame_recv_byte under a schedule
  // ------------------------------------------------------------------

  /** A ring and flags after several interrupts. */
  function AfterAll(s: Isr, es: seq<Sample>): (t: Isr)
    requires InRange(s.ring)
    ensures InRange(t.ring)
    decreases |es|
  {
    if |es| == 0 then s
    else
      InterruptInRange(s.ring, s.flags, es[0].error, es[0].data);
      AfterAll(OnInterrupt(s.ring, s.flags, es[0].error, es[0].data), es[1..])
  }

  lemma InterruptInRange(r: Ring, f: Flags, error: bool, data: byte)
    requires InRange(r)
    ensures InRange(OnInterrupt(r, f, error, data).ring)
  {
    hide Update;
  }

  lemma {:induction false} AfterAllRefines(s: Isr, a: RxSpec.Rx, es: seq<Sample>)
    requires Refines(s.ring, s.flags, a)
    ensures var t := AfterAll(s, es);
            && Refines(t.ring, t.flags, RxSpec.Run(a, Samples(es)))
            && t.ring.tail == s.ring.tail && t.ring.pIdx[s.ring.tail] == s.ring.pIdx[s.ring.tail]
    decreases |es|
  {
    if |es| != 0 {
      var e := es[0];
      var s' := OnInterrupt(s.ring, s.flags, e.error, e.data);
      InterruptRefines(s.ring, s.flags, a, e.error, e.data);
      InterruptKeepsTail(s.ring, s.flags, e.error, e.data);
      hide Refines, OnInterrupt, RxSpec.Step;
      AfterAllRefines(s', RxSpec.Step(a, EventOf(e.error, e.data)), es[1..]);
    }
  }

  lemma {:induction false} SamplesConsumeNothing(es: seq<Sample>)
    ensures Consumed(Samples(es)) == []
    decreases |es|
  {
    if |es| != 0 {
      SamplesConsumeNothing(es[1..]);
    }
  }

  /** frame_recv_byte called in `s`: `e1` arrives before it reads the boundary after
      the current packet, `e2` before it reads the head, and `e3` before it moves
      its own boundary, if it does. */
  datatype Called = Called(s: Isr, moved: bool)

  function RecvByte(s: Isr, e1: seq<Sample>, e2: seq<Sample>, e3: seq<Sample>): Called
    requires InRange(s.ring)
  {
    var r := s.ring;
    var s1 := AfterAll(s, e1);
    var s2 := AfterAll(s1, e2);
    var s3 := AfterAll(s2, e3);
    if r.tail != s2.ring.head && r.pIdx[r.tail] != s1.ring.pIdx[CircNext(r.tail, P_SZ)] then
      Called(s3.(ring := s3.ring.(pIdx := s3.ring.pIdx[r.tail := CircNext(r.pIdx[r.tail], B_SZ)])), true)
    else Called(s3, false)
  }

  /** The call is a read of one byte, or of none. */
  predicate KeptBy(s: Isr, a: RxSpec.Rx, e1: seq<Sample>, e2: seq<Sample>, e3: seq<Sample>)
    requires InRange(s.ring) && RxSpec.Valid(a)
  {
    var c := RecvByte(s, e1, e2, e3);
    var b := RxSpec.Run(RxSpec.Run(RxSpec.Run(a, Samples(e1)), Samples(e2)), Samples(e3));
    Refines(c.s.ring, c.s.flags, if c.moved then RxSpec.Step(b, RxSpec.Take(1)) else b)
  }

  /** What interrupts leave of the consumer's view. */
  lemma ViewAfter(s: Isr, a: RxSpec.Rx, es: seq<Sample>)
    requires Refines(s.ring, s.flags, a)
    ensures var t, b := AfterAll(s, es), RxSpec.Run(a, Samples(es));
            && Refines(t.ring, t.flags, b) && RxSpec.Queue(a) <= RxSpec.Queue(b)
            && t.ring.tail == s.ring.tail && t.ring.pIdx[s.ring.tail] == s.ring.pIdx[s.ring.tail]
  {
    AfterAllRefines(s, a, es);
    SamplesConsumeNothing(es);
    InterruptsOnlyAdd(a, Samples(es));
  }

  /** The tests of the code in a state of the decoder. */
  lemma ViewOf(s: Isr, a: RxSpec.Rx)
    requires Refines(s.ring, s.flags, a)
    ensures var r := s.ring;
            && (r.tail == r.head <==> RxSpec.Queue(a) == [])
            && (RxSpec.Queue(a) != [] ==>
                  (r.pIdx[r.tail] == r.pIdx[CircNext(r.tail, P_SZ)] <==> RxSpec.Queue(a)[0] == []))
            && (RxSpec.Queue(a) == [] ==>
                  (r.pIdx[r.tail] == r.pIdx[CircNext(r.tail, P_SZ)] <==> a.cur == []))
  {
    FirstPacket(s.ring);
    OpenIsEmpty(s.ring);
  }

  lemma RecvByteQueued(s: Isr, a: RxSpec.Rx, e1: seq<Sample>, e2: seq<Sample>, e3: seq<Sample>)
    requires Refines(s.ring, s.flags, a) && RxSpec.Queue(a) != []
    ensures KeptBy(s, a, e1, e2, e3)
  {
    hide Refines, RxSpec.Queue, RxSpec.Run, RxSpec.Step, AfterAll, Samples;
    QueueIs(s, a);
    var s1, a1 := AfterAll(s, e1), RxSpec.Run(a, Samples(e1));
    var s2, a2 := AfterAll(s1, e2), RxSpec.Run(a1, Samples(e2));
    var s3, a3 := AfterAll(s2, e3), RxSpec.Run(a2, Samples(e3));
    ViewAfter(s, a, e1);
    ViewAfter(s1, a1, e2);
    ViewAfter(s2, a2, e3);
    ViewOf(s1, a1);
    ViewOf(s2, a2);
    if RxSpec.Queue(a)[0] != [] {
      QueueIs(s3, a3);
      RefinesTake(s3.ring, s3.flags, a3, 1);
    }
  }

  lemma QueueIs(s: Isr, a: RxSpec.Rx)
    requires Refines(s.ring, s.flags, a)
    ensures InRange(s.ring) && RxSpec.Valid(a)
    ensures Ok(s.ring) && Packets(s.ring) == RxSpec.Queue(a) && Count(s.ring) == |RxSpec.Queue(a)|
  {}

  /** frame_recv_byte keeps the refinement under every schedule if and only if a
      packet is queued when it is called. Otherwise the boundary it reads may belong
      to a frame that is then dropped, and a packet without payload may be queued
      before it reads the head; it then moves its boundary past the end of that. */
  lemma RecvByteIff(s: Isr, a: RxSpec.Rx)
    requires Refines(s.ring, s.flags, a)
    ensures (forall e1, e2, e3 :: KeptBy(s, a, e1, e2, e3)) <==> RxSpec.Queue(a) != []
  {
    if RxSpec.Queue(a) != [] {
      forall e1, e2, e3
        ensures KeptBy(s, a, e1, e2, e3)
      {
        RecvByteQueued(s, a, e1, e2, e3);
      }
    } else {
      RecvByteOvertaken(s, a, 0);
    }
  }

  lemma RecvByteOvertaken(s: Isr, a: RxSpec.Rx, b: byte)
    requires Refines(s.ring, s.flags, a) && RxSpec.Queue(a) == [] && !EscCheck(b)
    ensures !KeptBy(s, a, StrayByte(b), EMPTY_FRAME, [])
  {
    hide Refines, RxSpec.Queue, RxSpec.Run, RxSpec.Step, AfterAll, Samples, StrayByte, EscCheck, EMPTY_FRAME;
    QueueIs(s, a);
    var e1, e2 := StrayByte(b), EMPTY_FRAME;
    var s1, a1 := AfterAll(s, e1), RxSpec.Run(a, Samples(e1));
    var s2, a2 := AfterAll(s1, e2), RxSpec.Run(a1, Samples(e2));
    EmptyPacketOvertakes(a, b);
    ViewAfter(s, a, e1);
    ViewAfter(s1, a1, e2);
    ViewOf(s1, a1);
    ViewOf(s2, a2);
    RunNone(a2);
    AfterNone(s2);
    PastTheEnd(s2, a2);
  }

  /** Behind an empty packet the byte pointer cannot be moved. */
  lemma PastTheEnd(s: Isr, a: RxSpec.Rx)
    requires Refines(s.ring, s.flags, a) && RxSpec.Queue(a) == [[]]
    ensures InRange(s.ring) && RxSpec.Valid(a)
    ensures !Refines(Advance(s.ring, 1), s.flags, RxSpec.Step(a, RxSpec.Take(1)))
  {
    hide Refines, RxSpec.Queue, RxSpec.Step, Advance, Packets, Ok;
    QueueIs(s, a);
    BumpIff(s.ring);
    TakeOfEmpty(a);
    var c := s.(ring := Advance(s.ring, 1));
    assert [[]] + Packets(s.ring)[1..] == Packets(s.ring);
    if Refines(c.ring, c.flags, RxSpec.Step(a, RxSpec.Take(1))) {
      QueueIs(c, RxSpec.Step(a, RxSpec.Take(1)));
    }
  }

  lemma AfterNone(s: Isr)
    requires InRange(s.ring)
    ensures AfterAll(s, []) == s
  {}

  lemma TakeOfEmpty(a: RxSpec.Rx)
    requires RxSpec.Valid(a) && RxSpec.Queue(a) == [[]]
    ensures RxSpec.Queue(RxSpec.Step(a, RxSpec.Take(1))) == [[]]
  {
    assert RxSpec.Step(a, RxSpec.Take(1)) == RxSpec.OnTake(a, 1);
  }

  lemma EmptyFrame()
    ensures Checks([0xff, 0xff]) && Trim([0xff, 0xff]) == []
  {
    CheckBytesCheck([]);
    assert [] + CheckBytes([]) == [0xff, 0xff];
  }

  // ------------------------------------------------------------------
  // The code
  // ------------------------------------------------------------------

  class Receiver {
    const buf: array<byte>
    const pIdx: array<nat>
    var head: nat
    var tail: nat
    var isEscaped: bool
    var recvStarted: bool
    var crc: bv16
    var coming: seq<Sample>  // what is still to arrive
    ghost var trace: seq<RxSpec.Event>

    ghost function Snapshot(): Ring
      reads this, buf, pIdx
    {
      Ring(buf[..], pIdx[..], head, tail)
    }

    ghost function Abs(): (a: RxSpec.Rx)
      reads this
      ensures RxSpec.Valid(a)
    {
      RxSpec.Replay(trace)
    }

    /** What has arrived and what is still to arrive. Only the interrupt takes anything
        from the line, and in order; so this never changes. */
    ghost function Line(): seq<RxSpec.Event>
      reads this
    {
      Arrived(trace) + Samples(coming)
    }

    /** What the consumer can see. */
    ghost function Queue(): seq<seq<byte>>
      reads this
    {
      RxSpec.Queue(Abs())
    }

    ghost predicate Valid()
      reads this, buf, pIdx
      ensures Valid() ==> InRange(Snapshot())
    {
      Refines(Snapshot(), Flags(isEscaped, recvStarted, crc), Abs())
    }

    /** Static storage is zero at start. */
    constructor (coming: seq<Sample>)
      ensures Valid() && fresh(buf) && fresh(pIdx)
      ensures trace == [] && Line() == Samples(coming)
    {
      buf := new byte[64](_ => 0);
      pIdx := new nat[8](_ => 0);
      head, tail := 0, 0;
      isEscaped, recvStarted, crc := false, false, 0;
      this.coming, trace := coming, [];
      new;
      assert Line() == [] + Samples(coming);
      hide Refines, RxSpec.Queue, Packets, OpenOk;
      PowerUp(Snapshot());
      assert Abs() == RxSpec.INITIAL;
    }

    /** The end of RX_ISR: give up the packet being received. */
    method DropPacket()
      requires InRange(Snapshot())
      modifies this`recvStarted, this`isEscaped, this`crc, pIdx
      ensures Snapshot() == Rewind(old(Snapshot()))
      ensures Flags(isEscaped, recvStarted, crc) == Flags(false, false, INIT)
    {
      recvStarted := false;
      isEscaped := false;
      crc := INIT;
      pIdx[CircNext(head, P_SZ)] := pIdx[head];
    }

    /** The branch of RX_ISR for a flag: publish the packet that it ends, if that
        is possible, and prepare for the next one. */
    method TakeFlag()
      requires InRange(Snapshot())
      modifies this`head, this`recvStarted, this`isEscaped, this`crc, pIdx
      ensures Snapshot() == FlagRing(old(Snapshot()), old(crc))
      ensures Flags(isEscaped, recvStarted, crc) == Flags(false, true, INIT)
    {
      var ih := head;
      var ih1 := CircNext(head, P_SZ);
      recvStarted := true;
      isEscaped := false;
      if pIdx[ih] != pIdx[ih1] {
        var ih2 := CircNext(ih1, P_SZ);
        if ih2 == tail || crc != 0 {
          pIdx[ih1] := pIdx[ih];
        } else {
          var end := Mask(pIdx[ih1] + B_SZ - FRAME_CRC_SZ, B_SZ);
          pIdx[ih1] := end;
          pIdx[ih2] := end;
          head := ih1;
        }
      }
      crc := INIT;
    }

    /** The branch of RX_ISR for a byte of a frame: store it if there is room. */
    method PutByte(d: byte) returns (stored: bool)
      requires InRange(Snapshot())
      modifies this`crc, buf, pIdx
      ensures stored == HasRoom(old(Snapshot()))
      ensures Snapshot() == if stored then Store(old(Snapshot()), d) else old(Snapshot())
      ensures crc == Update(old(crc), d)
    {
      hide Update;
      crc := Update(crc, d);
      var ih1 := CircNext(head, P_SZ);
      var bIh1 := pIdx[ih1];
      var bIh11 := CircNext(bIh1, B_SZ);
      stored := pIdx[tail] != bIh11;
      if stored {
        buf[bIh1] := d;
        pIdx[ih1] := bIh11;
      }
    }

    /** RX_ISR without the ghost trace. */
    method Handle(error: bool, data: byte)
      requires InRange(Snapshot())
      modifies this`head, this`recvStarted, this`isEscaped, this`crc, buf, pIdx
      ensures Isr(Snapshot(), Flags(isEscaped, recvStarted, crc))
           == OnInterrupt(old(Snapshot()), old(Flags(isEscaped, recvStarted, crc)), error, data)
    {
      hide Update, Rewind, FlagRing, Store, HasRoom;
      var d := data;
      if !error {
        if d == FLAG {
          TakeFlag();
          return;
        }
        if !recvStarted {
          return;
        }
        if d != RESET {
          if d == ESC {
            isEscaped := true;
            return;
          }
          if isEscaped {
            isEscaped := false;
            d := d ^ MASK;
          }
          var stored := PutByte(d);
          if stored {
            return;
          }
        }
      }
      DropPacket();
    }

    /** RX_ISR: `error` is the line error flag of the byte. */
    method RxIsr(error: bool, data: byte)
      requires Valid()
      modifies this, buf, pIdx
      ensures Valid()
      ensures trace == old(trace) + [EventOf(error, data)] && coming == old(coming)
      ensures tail == old(tail) && pIdx[tail] == old(pIdx[tail])
    {
      ghost var r, f, a := Snapshot(), Flags(isEscaped, recvStarted, crc), Abs();
      RxSpec.ReplaySnoc(trace, EventOf(error, data));
      InterruptRefines(r, f, a, error, data);
      InterruptKeepsTail(r, f, error, data);
      assert InRange(r);
      hide Refines, OnInterrupt, RxSpec.Replay, RxSpec.Step;
      Handle(error, data);
      trace := trace + [EventOf(error, data)];
    }

    /** Any number of interrupts, with the bytes that come next: what may happen
        between two accesses of the main loop to shared memory. */
    method Interrupts()
      requires Valid()
      modifies this, buf, pIdx
      ensures Valid() && Line() == old(Line())
      ensures WentOn(old(trace), trace, [])
      ensures tail == old(tail) && pIdx[tail] == old(pIdx[tail])
      ensures old(Queue()) <= Queue()
    {
      hide Refines, Arrived, Samples;
      var n: nat := *;
      while n > 0 && coming != []
        invariant Valid() && Line() == old(Line())
        invariant WentOn(old(trace), trace, [])
        invariant tail == old(tail) && pIdx[tail] == old(pIdx[tail])
      {
        var e := coming[0];
        WentOnStep(old(trace), trace, [], EventOf(e.error, e.data));
        NextArrives(trace, coming);
        RxIsr(e.error, e.data);
        coming := coming[1..];
        n := n - 1;
      }
      QueueGoesOn(old(trace), trace);
    }

    /** return: number of bytes in the current packet, 0 if there is none. */
    method FrameRecvLen() returns (len: nat)
      requires Valid()
      modifies this, buf, pIdx
      ensures Valid() && WentOn(old(trace), trace, [])
      ensures old(Queue()) != [] ==> len == |old(Queue())[0]|
      ensures len != 0 ==> Queue() != [] && len == |Queue()[0]|
      ensures Line() == old(Line())
    {
      hide Refines, RxSpec.Queue, RxSpec.Replay, WentOn, Ordered;
      var it := tail;
      Interrupts();
      ghost var t := trace;
      FirstPacketHere();
      if it != head {
        Interrupts();
        WentOnTrans(old(trace), t, trace, [], []);
        FirstPacketHere();
        t := trace;
        var bIt1 := pIdx[CircNext(it, P_SZ)];
        Interrupts();
        WentOnTrans(old(trace), t, trace, [], []);
        FirstPacketHere();
        len := CircCnt(bIt1, pIdx[it], B_SZ);
      } else {
        len := 0;
      }
    }

    /** One read of the data ring, `k` places into the current packet `p`. */
    method Fetch(place: nat, ghost p: seq<byte>, ghost k: nat) returns (d: byte)
      requires Valid() && Queue() != [] && Queue()[0] == p
      requires k < |p| && place == Mask(pIdx[tail] + k, B_SZ)
      modifies this, buf, pIdx
      ensures Valid() && WentOn(old(trace), trace, [])
      ensures tail == old(tail) && pIdx[tail] == old(pIdx[tail])
      ensures Queue() != [] && Queue()[0] == p
      ensures d == p[k]
      ensures Line() == old(Line())
    {
      hide Refines, RxSpec.Queue, RxSpec.Replay, WentOn, Ordered;
      Interrupts();
      ByteHere(k);
      d := buf[place];
    }

    /** memcpy of `n` bytes of the current packet `p`, from its byte `skip` on, out
        of the ring at `from` to `dst` at `at`. */
    method CopyOut(dst: array<byte>, at: nat, from: nat, n: nat, ghost p: seq<byte>, ghost skip: nat)
      requires Valid() && dst != buf && dst as object != pIdx && at + n <= dst.Length
      requires Queue() != [] && Queue()[0] == p && skip + n <= |p|
      requires from + n <= B_SZ && (n != 0 ==> from == Mask(pIdx[tail] + skip, B_SZ))
      modifies this, buf, pIdx, dst
      ensures Valid() && WentOn(old(trace), trace, [])
      ensures tail == old(tail) && pIdx[tail] == old(pIdx[tail])
      ensures Queue() != [] && Queue()[0] == p
      ensures dst[..] == old(dst[..at]) + p[skip..skip + n] + old(dst[at + n..])
      ensures Line() == old(Line())
    {
      hide Refines, RxSpec.Queue, RxSpec.Replay, WentOn, Ordered, Line;
      var i := 0;
      ghost var d0 := dst[..];
      WentOnReflexive(trace);
      while i < n
        invariant i <= n
        invariant Valid() && WentOn(old(trace), trace, [])
        invariant tail == old(tail) && pIdx[tail] == old(pIdx[tail])
        invariant Queue() != [] && Queue()[0] == p
        invariant Line() == old(Line())
        invariant dst[..] == d0[..at] + p[skip..skip + i] + d0[at + i..]
      {
        ghost var t, was := trace, dst[..];
        var d := Fetch(from + i, p, skip + i);
        WentOnTrans(old(trace), t, trace, [], []);
        dst[at + i] := d;
        assert dst[..] == was[at + i := d];
        OneCopied(d0, at, p, skip, i);
        i := i + 1;
      }
    }

    /** dst: at least `len` bytes, into which the current packet is copied.
        return: length of the current packet, not the amount copied; 0 if there is
        none. `took` says that a packet was there, and `p` what was left of it. */
    method FrameRecvCopy(dst: array<byte>, len: nat)
      returns (ct: nat, ghost took: bool, ghost p: seq<byte>)
      requires Valid() && dst != buf && dst as object != pIdx && len <= dst.Length
      modifies this, buf, pIdx, dst
      ensures Valid()
      ensures old(Queue()) != [] ==> took && p == old(Queue())[0]
      ensures took ==>
                var n := Min(len, |p|);
                && ct == |p| && dst[..] == p[..n] + old(dst[n..])
                && WentOn(old(trace), trace, [RxSpec.Take(n)])
                && Queue() != [] && Queue()[0] == p[n..]
      ensures !took ==> ct == 0 && dst[..] == old(dst[..]) && WentOn(old(trace), trace, [])
      ensures old(Abs()).published <= Abs().published && Abs().popped == old(Abs()).popped
      ensures took ==> Abs().popped < |Abs().published| && p == Abs().published[Abs().popped][old(Abs()).readCt..]
      ensures Abs().readCt == old(Abs()).readCt + if took then Min(len, |p|) else 0
      ensures Line() == old(Line())
    {
      hide Refines, RxSpec.Queue, RxSpec.Replay, WentOn, Ordered, Line;
      var it := tail;
      Interrupts();
      PlaceAfter(old(trace), trace, []);
      FirstPacketHere();
      took := it != head;
      if it != head {
        p := Queue()[0];
        ghost var t, a := trace, Abs();
        ct := CopyPacket(dst, len, p);
        WentOnTrans(old(trace), t, trace, [], [RxSpec.Take(Min(len, |p|))]);
        PlaceAfter(t, trace, [RxSpec.Take(Min(len, |p|))]);
        SameCurrent(a, Abs(), Min(len, |p|));
      } else {
        ct, p := 0, [];
      }
    }

    /** frame_recv_copy once it has seen that there is a packet. */
    method CopyPacket(dst: array<byte>, len: nat, ghost p: seq<byte>) returns (ct: nat)
      requires Valid() && dst != buf && dst as object != pIdx && len <= dst.Length
      requires Queue() != [] && Queue()[0] == p
      modifies this, buf, pIdx, dst
      ensures Valid() && ct == |p|
      ensures var n := Min(len, |p|);
              && dst[..] == p[..n] + old(dst[n..])
              && WentOn(old(trace), trace, [RxSpec.Take(n)])
              && Queue() != [] && Queue()[0] == p[n..]
      ensures Line() == old(Line())
    {
      hide Refines, RxSpec.Queue, RxSpec.Replay, WentOn, Ordered, Line;
      var it := tail;
      Interrupts();
      var bIt := pIdx[it];
      ghost var t := trace;
      Interrupts();
      WentOnTrans(old(trace), t, trace, [], []);
      FirstPacketHere();
      var bIt1 := pIdx[CircNext(it, P_SZ)];
      ct := CircCnt(bIt1, bIt, B_SZ);
      var cpyCt := Min(len, ct);
      var cpy1Len := Min(len, CircCntToEnd(bIt1, bIt, B_SZ));
      t := trace;
      CopyBoth(dst, bIt, cpyCt, cpy1Len, p);
      WentOnTrans(old(trace), t, trace, [], []);
      t := trace;
      TakeBytes(it, bIt, cpyCt, p);
      WentOnTrans(old(trace), t, trace, [], [RxSpec.Take(cpyCt)]);
    }

    /** The two memcpy calls: up to the end of the ring, and from its start. */
    method CopyBoth(dst: array<byte>, bIt: nat, cpyCt: nat, cpy1Len: nat, ghost p: seq<byte>)
      requires Valid() && dst != buf && dst as object != pIdx
      requires Queue() != [] && Queue()[0] == p
      requires bIt == pIdx[tail] && cpy1Len <= cpyCt <= |p| && cpyCt <= dst.Length
      requires bIt + cpy1Len <= B_SZ && (cpy1Len < cpyCt ==> bIt + cpy1Len == B_SZ)
      modifies this, buf, pIdx, dst
      ensures Valid() && WentOn(old(trace), trace, [])
      ensures tail == old(tail) && pIdx[tail] == old(pIdx[tail])
      ensures Queue() != [] && Queue()[0] == p
      ensures dst[..] == p[..cpyCt] + old(dst[cpyCt..])
      ensures Line() == old(Line())
    {
      hide Refines, RxSpec.Queue, RxSpec.Replay, WentOn, Ordered, Line;
      FirstPacketHere();
      ghost var d0 := dst[..];
      CopyOut(dst, 0, bIt, cpy1Len, p, 0);
      ghost var d1 := dst[..];
      assert d1 == p[..cpy1Len] + d0[cpy1Len..];
      ghost var t := trace;
      var cpy2Len := cpyCt - cpy1Len;
      CopyOut(dst, cpy1Len, 0, cpy2Len, p, cpy1Len);
      WentOnTrans(old(trace), t, trace, [], []);
      PiecesJoin(p, d0, d1, cpy1Len, cpyCt);
    }

    /** The write by which the consumer moves its boundary past `n` bytes. */
    method TakeBytes(it: nat, bIt: nat, n: nat, ghost p: seq<byte>)
      requires Valid() && Queue() != [] && Queue()[0] == p && n <= |p|
      requires it == tail && bIt == pIdx[tail] && bIt + n < 2 * B_SZ
      modifies this, buf, pIdx
      ensures Valid() && WentOn(old(trace), trace, [RxSpec.Take(n)])
      ensures Queue() != [] && Queue()[0] == p[n..]
      ensures Line() == old(Line())
    {
      hide Refines, RxSpec.Queue, RxSpec.Replay, WentOn, Ordered, Line;
      Interrupts();
      WentOnStep(old(trace), trace, [], RxSpec.Take(n));
      SetBoundary(it, Mask(bIt + n, B_SZ), n);
      assert [] + [RxSpec.Take(n)] == [RxSpec.Take(n)];
    }

    method SetBoundary(it: nat, b: nat, ghost n: nat)
      requires Valid() && Queue() != [] && n <= |Queue()[0]|
      requires it == tail && pIdx[tail] + n < 2 * B_SZ && b == Mask(pIdx[tail] + n, B_SZ)
      modifies this`trace, pIdx
      ensures Valid() && trace == old(trace) + [RxSpec.Take(n)]
      ensures Queue() != [] && Queue()[0] == old(Queue())[0][n..]
      ensures Line() == old(Line())
    {
      hide RxSpec.Queue, RxSpec.Replay, RxSpec.Step, Ordered, Packets, OpenBytes;
      ghost var r, f, a := Snapshot(), Flags(isEscaped, recvStarted, crc), Abs();
      FirstPacketHere();
      QueueCount(r, f, a);
      RefinesTake(r, f, a, n);
      RxSpec.ReplaySnoc(trace, RxSpec.Take(n));
      RxSpec.TakeReads(a, n);
      hide Refines;
      pIdx[it] := b;
      NotArrived(trace, RxSpec.Take(n));
      trace := trace + [RxSpec.Take(n)];
      assert Snapshot() == Advance(r, n);
    }

    /** return: next byte from the packet, or 0 if there is none. `took` says that a
        byte was read, and `p` from which packet.

        The boundary of the next packet is read before the head. If the queue is
        empty at that time, the boundary may belong to a frame that is then
        dropped, and if a frame without payload is published before the head is
        read, the byte pointer is moved past the end of that empty packet. */
    method FrameRecvByte() returns (data: byte, ghost took: bool, ghost p: seq<byte>)
      requires Valid()
      modifies this, buf, pIdx
      ensures Valid() || (old(Queue()) == [] && Queue() != [] && Queue()[0] == [])
      ensures old(Queue()) != [] ==> p == old(Queue())[0] && took == (p != [])
      ensures Valid() && took ==>
                && p != [] && data == p[0] && WentOn(old(trace), trace, [RxSpec.Take(1)])
                && Queue() != [] && Queue()[0] == p[1..]
      ensures Valid() && !took ==> data == 0 && WentOn(old(trace), trace, [])
      ensures old(Queue()) != [] && !took ==> Queue() != [] && Queue()[0] == []
      ensures Line() == old(Line())
    {
      hide Refines, RxSpec.Queue, RxSpec.Replay, WentOn, Ordered, Line;
      var it := tail;
      var bIt := pIdx[it];
      Interrupts();
      FirstPacketHere();
      var bIt1 := pIdx[CircNext(it, P_SZ)];
      ghost var t := trace;
      Interrupts();
      WentOnTrans(old(trace), t, trace, [], []);
      FirstPacketHere();
      took, p := false, if Queue() != [] then Queue()[0] else [];
      if it != head && bIt != bIt1 {
        took := true;
        t := trace;
        Interrupts();
        WentOnTrans(old(trace), t, trace, [], []);
        FirstPacketHere();
        data := buf[bIt];
        t := trace;
        Interrupts();
        WentOnTrans(old(trace), t, trace, [], []);
        t := trace;
        BumpBoundary(it, CircNext(bIt, B_SZ));
        if p != [] {
          WentOnSelf(t, RxSpec.Take(1));
          WentOnTrans(old(trace), t, trace, [], [RxSpec.Take(1)]);
        }
      } else {
        data := 0;
      }
    }

    /** The write of frame_recv_byte. It is a read of one byte only if there is a
        byte to read. */
    method BumpBoundary(it: nat, b: nat)
      requires Valid() && Queue() != []
      requires it == tail && b == CircNext(pIdx[tail], B_SZ)
      modifies this`trace, pIdx
      ensures old(Queue())[0] != [] ==>
                && Valid() && trace == old(trace) + [RxSpec.Take(1)]
                && Queue() != [] && Queue()[0] == old(Queue())[0][1..]
      ensures old(Queue())[0] == [] ==> trace == old(trace) && !Valid()
      ensures Line() == old(Line())
    {
      hide RxSpec.Queue, RxSpec.Replay, RxSpec.Step, Ordered, Packets, OpenBytes;
      ghost var r, f, a := Snapshot(), Flags(isEscaped, recvStarted, crc), Abs();
      QueueCount(r, f, a);
      FirstPacketHere();
      pIdx[it] := b;
      if RxSpec.Queue(a)[0] != [] {
        RefinesTake(r, f, a, 1);
        RxSpec.ReplaySnoc(trace, RxSpec.Take(1));
        RxSpec.TakeReads(a, 1);
        NotArrived(trace, RxSpec.Take(1));
        trace := trace + [RxSpec.Take(1)];
        assert Snapshot() == Advance(r, 1);
      } else {
        BumpIff(r);
        assert Snapshot() == Advance(r, 1);
        assert RxSpec.Queue(a) == [[]] + RxSpec.Queue(a)[1..];
      }
    }

    /** Advance to the next packet. The queue must not be empty. */
    method FrameRecvNext()
      requires Valid() && Queue() != []
      modifies this, buf, pIdx
      ensures Valid() && WentOn(old(trace), trace, [RxSpec.Next])
      ensures old(Queue())[1..] <= Queue()
      ensures Abs().popped == old(Abs()).popped + 1 && Abs().readCt == 0
      ensures old(Abs()).published <= Abs().published
      ensures Line() == old(Line())
    {
      hide Refines, RxSpec.Queue, RxSpec.Replay, WentOn, RxSpec.Step, Ordered;
      var it1 := CircNext(tail, P_SZ);
      Interrupts();
      WentOnStep(old(trace), trace, [], RxSpec.Next);
      PlaceAfter(old(trace), trace, []);
      SetTail(it1);
      assert [] + [RxSpec.Next] == [RxSpec.Next];
    }

    method SetTail(it1: nat)
      requires Valid() && Queue() != [] && it1 == CircNext(tail, P_SZ)
      modifies this`tail, this`trace
      ensures Valid() && trace == old(trace) + [RxSpec.Next] && Queue() == old(Queue())[1..]
      ensures Abs() == RxSpec.OnNext(old(Abs())) && Abs().popped == old(Abs()).popped + 1
      ensures Line() == old(Line())
    {
      hide RxSpec.Queue, RxSpec.Replay, RxSpec.Step, Ok, Packets, OpenBytes;
      ghost var r, f, a := Snapshot(), Flags(isEscaped, recvStarted, crc), Abs();
      QueueCount(r, f, a);
      RxSpec.QueueParts(a);
      NextIs(a);
      RefinesNext(r, f, a);
      RxSpec.ReplaySnoc(trace, RxSpec.Next);
      RxSpec.NextBringsUp(a);
      hide Refines;
      tail := it1;
      NotArrived(trace, RxSpec.Next);
      trace := trace + [RxSpec.Next];
      assert Snapshot() == Leave(r);
    }

    /** return: the number of packets in the queue, at the time the head is read. */
    method FrameRecvCt() returns (n: nat)
      requires Valid()
      modifies this, buf, pIdx
      ensures Valid() && WentOn(old(trace), trace, [])
      ensures |old(Queue())| <= n <= |Queue()|
      ensures Line() == old(Line())
    {
      Interrupts();
      assert |Queue()| == CircCnt(head, tail, P_SZ);
      var h := head;
      ghost var t := trace;
      Interrupts();
      WentOnTrans(old(trace), t, trace, [], []);
      n := CircCnt(h, tail, P_SZ);
    }

    /** One round of the main loop of avr/main.c as far as reception goes. A packet
        is popped exactly when it is not empty, so an empty one is never left. `took`
        says that a packet was there, and `p` what was left of it. */
    method Poll(dst: array<byte>) returns (len: nat, ghost took: bool, ghost p: seq<byte>)
      requires Valid() && dst != buf && dst as object != pIdx
      modifies this, buf, pIdx, dst
      ensures Valid()
      ensures old(Queue()) != [] ==> took && p == old(Queue())[0]
      ensures took ==>
                var n := Min(dst.Length, |p|);
                && len == |p| && dst[..] == p[..n] + old(dst[n..])
                && WentOn(old(trace), trace, if p != [] then [RxSpec.Take(n), RxSpec.Next] else [RxSpec.Take(0)])
                && (p == [] ==> Queue() != [] && Queue()[0] == [])
      ensures !took ==> len == 0 && dst[..] == old(dst[..]) && WentOn(old(trace), trace, [])
      ensures old(trace) <= trace && old(Abs()).published <= Abs().published
      ensures Abs().popped == old(Abs()).popped + if took && p != [] then 1 else 0
      ensures Abs().readCt == if took && p != [] then 0 else old(Abs()).readCt
      ensures took ==>
                old(Abs()).popped < |Abs().published| && p == Abs().published[old(Abs()).popped][old(Abs()).readCt..]
      ensures Line() == old(Line())
    {
      hide Refines, RxSpec.Queue, RxSpec.Replay, WentOn, Ordered, Line;
      len, took, p := FrameRecvCopy(dst, dst.Length);
      ghost var t := trace;
      WentOnward(old(trace), t, if took then [RxSpec.Take(Min(dst.Length, |p|))] else []);
      if len != 0 {
        FrameRecvNext();
        WentOnward(t, trace, [RxSpec.Next]);
        WentOnTrans(old(trace), t, trace, [RxSpec.Take(Min(dst.Length, |p|))], [RxSpec.Next]);
        assert [RxSpec.Take(Min(dst.Length, |p|))] + [RxSpec.Next] == [RxSpec.Take(Min(dst.Length, |p|)), RxSpec.Next];
      }
    }

    /** The main loop, any number of rounds of it: `delivered` lists what it finds in
        `dst`. These are the published packets it has popped, in order, each once,
        and whole if `dst` is long enough. A round pops at most one; as long as the
        packets queued at the call are not empty, it pops one. */
    method Polls(dst: array<byte>, rounds: nat) returns (delivered: seq<seq<byte>>)
      requires Valid() && dst != buf && dst as object != pIdx
      requires Abs().readCt == 0
      modifies this, buf, pIdx, dst
      ensures Valid() && old(trace) <= trace
      ensures Delivered(old(Abs()), Abs(), delivered, dst.Length)
      ensures Min(rounds, Ready(old(Queue()))) <= |delivered| <= rounds
      ensures Line() == old(Line())
    {
      hide Ready, Refines, RxSpec.Queue, RxSpec.Replay, Ordered, Clipped, RxSpec.Prefix, Delivered, WentOn;
      delivered := [];
      var i := 0;
      NoneDelivered(Abs(), dst.Length);
      while i < rounds
        invariant Valid() && old(trace) <= trace
        invariant Delivered(old(Abs()), Abs(), delivered, dst.Length)
        invariant Line() == old(Line())
        invariant i <= rounds && Min(i, Ready(old(Queue()))) <= |delivered| <= i
      {
        ghost var a := Abs();
        if |delivered| < Ready(old(Queue())) {
          NextIsReady(old(Abs()), a, delivered, dst.Length);
        }
        ghost var took, p;
        var len;
        len, took, p := Poll(dst);
        OneMore(old(Abs()), a, Abs(), delivered, if took then p else [], dst.Length);
        if len != 0 {
          FrontOf(dst[..], p, Min(dst.Length, len));
          delivered := delivered + [dst[..Min(dst.Length, len)]];
        }
        i := i + 1;
      }
    }

    lemma ByteHere(k: nat)
      requires Valid() && Queue() != [] && k < |Queue()[0]|
      ensures pIdx[tail] + k < 2 * B_SZ && buf[Mask(pIdx[tail] + k, B_SZ)] == Queue()[0][k]
    {
      FirstPacket(Snapshot());
    }

    lemma FirstPacketHere()
      requires Valid()
      ensures Queue() == [] <==> head == tail
      ensures Queue() != [] ==>
                var p := Queue()[0];
                && |p| < B_SZ && CircCnt(pIdx[CircNext(tail, P_SZ)], pIdx[tail], B_SZ) == |p|
                && (p != [] ==> buf[pIdx[tail]] == p[0])
    {
      FirstPacket(Snapshot());
      if Queue() != [] && Queue()[0] != [] {
        assert buf[Mask(pIdx[tail] + 0, B_SZ)] == Queue()[0][0];
      }
    }
  }

  lemma OneCopied(d: seq<byte>, at: nat, p: seq<byte>, skip: nat, i: nat)
    requires at + i < |d| && skip + i < |p|
    ensures (d[..at] + p[skip..skip + i] + d[at + i..])[at + i := p[skip + i]]
         == d[..at] + p[skip..skip + i + 1] + d[at + i + 1..]
  {}

  /** Two copies side by side are one. */
  lemma PiecesJoin(p: seq<byte>, d: seq<byte>, d1: seq<byte>, i: nat, k: nat)
    requires i <= k <= |p| && k <= |d| && d1 == p[..i] + d[i..]
    ensures d1[..i] + p[i..k] + d1[k..] == p[..k] + d[k..]
  {
    assert d1[..i] == p[..i] && d1[k..] == d[k..];
    assert p[..i] + p[i..k] == p[..k];
  }

  lemma NextIs(a: RxSpec.Rx)
    requires RxSpec.Valid(a)
    ensures RxSpec.Step(a, RxSpec.Next) == RxSpec.OnNext(a)
  {}

  /** Packets as they end up in a buffer of `n` bytes. */
  function Clipped(q: seq<seq<byte>>, n: nat): (r: seq<seq<byte>>)
    ensures |r| == |q|
  {
    seq(|q|, i requires 0 <= i < |q| => RxSpec.Prefix(q[i], n))
  }

  lemma ClippedWhole(q: seq<seq<byte>>, n: nat)
    requires forall i :: 0 <= i < |q| ==> |q[i]| <= n
    ensures Clipped(q, n) == q
  {
    assert forall i :: 0 <= i < |q| ==> Clipped(q, n)[i] == q[i];
  }

  /** The state went from `a` to `b`, and the packets popped meanwhile were delivered
      in a buffer of `n` bytes. */
  predicate Delivered(a: RxSpec.Rx, b: RxSpec.Rx, delivered: seq<seq<byte>>, n: nat) {
    && a.published <= b.published && a.popped <= b.popped <= |b.published| && b.readCt == 0
    && delivered == Clipped(b.published[a.popped..b.popped], n)
  }

  /** How many packets stand at the front that are not empty. */
  function Ready(q: seq<seq<byte>>): (n: nat)
    ensures n <= |q|
    ensures forall i :: 0 <= i < n ==> q[i] != []
    decreases |q|
  {
    if |q| == 0 || q[0] == [] then 0
    else
      var n := 1 + Ready(q[1..]);
      assert forall i :: 1 <= i < n ==> q[i] == q[1..][i - 1];
      n
  }

  /** As long as not all of these are delivered, the current packet is one of them. */
  lemma NextIsReady(a: RxSpec.Rx, b: RxSpec.Rx, delivered: seq<seq<byte>>, n: nat)
    requires RxSpec.Valid(a) && RxSpec.Valid(b) && a.readCt == 0
    requires Delivered(a, b, delivered, n) && |delivered| < Ready(RxSpec.Queue(a))
    ensures RxSpec.Queue(b) != [] && RxSpec.Queue(b)[0] != []
  {
    hide Ready;
    var k := |delivered|;
    assert b.popped == a.popped + k;
    assert RxSpec.Queue(a)[k] == a.published[a.popped + k] by { QueueAt(a, k); }
    QueueAt(b, 0);
  }

  lemma QueueAt(a: RxSpec.Rx, k: nat)
    requires RxSpec.Valid(a) && a.readCt == 0 && k < |RxSpec.Queue(a)|
    ensures RxSpec.Queue(a)[k] == a.published[a.popped + k]
  {}

  lemma NoneDelivered(a: RxSpec.Rx, n: nat)
    requires RxSpec.Valid(a) && a.readCt == 0
    ensures Delivered(a, a, [], n)
  {}

  lemma OneMore(a: RxSpec.Rx, b: RxSpec.Rx, c: RxSpec.Rx, delivered: seq<seq<byte>>, p: seq<byte>, n: nat)
    requires Delivered(a, b, delivered, n) && b.published <= c.published
    requires c.popped == b.popped + (if p != [] then 1 else 0) && c.popped <= |c.published|
    requires c.readCt == if p != [] then 0 else b.readCt
    requires p != [] ==> b.readCt <= |c.published[b.popped]| && p == c.published[b.popped][b.readCt..]
    ensures Delivered(a, c, if p != [] then delivered + [RxSpec.Prefix(p, n)] else delivered, n)
  {
    var old_ := c.published[a.popped..b.popped];
    assert old_ == b.published[a.popped..b.popped];
    if p != [] {
      assert c.published[a.popped..c.popped] == old_ + [p];
    }
  }

  lemma FrontOf(d: seq<byte>, p: seq<byte>, n: nat)
    requires n == Min(|d|, |p|) && p[..n] <= d
    ensures d[..n] == RxSpec.Prefix(p, |d|)
  {}

  lemma PowerUp(r: Ring)
    requires InRange(r) && r.head == r.tail == 0 && r.pIdx[0] == r.pIdx[1]
    ensures Refines(r, Flags(false, false, 0), RxSpec.INITIAL)
  {
    hide At;
    assert Count(r) == 0 && Off(r, 1) == 0;
  }

  lemma WentOnSelf(t: seq<RxSpec.Event>, e: RxSpec.Event)
    requires IsConsumer(e)
    ensures WentOn(t, t + [e], [e])
  {
    WentOnReflexive(t);
    WentOnStep(t, t, [], e);
    assert [] + [e] == [e];
  }

  lemma WentOnward(t: seq<RxSpec.Event>, u: seq<RxSpec.Event>, ops: seq<RxSpec.Event>)
    requires WentOn(t, u, ops)
    ensures t <= u
  {}

  lemma WentOnReflexive(t: seq<RxSpec.Event>)
    ensures WentOn(t, t, [])
  {
    assert t[|t|..] == [];
  }

  lemma ConsumedFirst(t: seq<RxSpec.Event>)
    requires t != [] && IsConsumer(t[0])
    ensures t[0] in Consumed(t)
  {
    assert Mark(t[0])[0] == t[0];
  }

  /** How far the current packet is read can be told from what is left of it. */
  lemma SameCurrent(a: RxSpec.Rx, b: RxSpec.Rx, n: nat)
    requires RxSpec.Valid(a) && RxSpec.Valid(b) && RxSpec.Queue(a) != [] && RxSpec.Queue(b) != []
    requires a.published <= b.published && b.popped == a.popped
    requires n <= |RxSpec.Queue(a)[0]| && RxSpec.Queue(b)[0] == RxSpec.Queue(a)[0][n..]
    ensures a.popped < |a.published| && RxSpec.Queue(a)[0] == b.published[b.popped][a.readCt..]
    ensures b.readCt == a.readCt + n
  {
    RxSpec.QueueParts(a);
    RxSpec.QueueParts(b);
  }

  /** A consumer that does not advance stays at its packet. */
  lemma {:induction false} StaysAt(a: RxSpec.Rx, t: seq<RxSpec.Event>)
    requires RxSpec.Valid(a) && forall e :: e in Consumed(t) ==> !e.Next?
    ensures RxSpec.Run(a, t).popped == a.popped
    decreases |t|
  {
    if |t| != 0 {
      assert Consumed(t) == Mark(t[0]) + Consumed(t[1..]);
      if IsConsumer(t[0]) {
        ConsumedFirst(t);
      } else {
        RxSpec.InterruptKeepsPlace(a, t[0]);
      }
      assert RxSpec.Step(a, t[0]).popped == a.popped;
      hide RxSpec.Step;
      StaysAt(RxSpec.Step(a, t[0]), t[1..]);
    }
  }

  lemma PlaceAfter(t: seq<RxSpec.Event>, u: seq<RxSpec.Event>, ops: seq<RxSpec.Event>)
    requires WentOn(t, u, ops) && forall e :: e in ops ==> !e.Next?
    ensures var a, b := RxSpec.Replay(t), RxSpec.Replay(u);
            && b.popped == a.popped && a.published <= b.published
            && (ops == [] ==> b.readCt == a.readCt)
  {
    RxSpec.RunAppend(RxSpec.INITIAL, t, u[|t|..]);
    assert t + u[|t|..] == u;
    StaysAt(RxSpec.Replay(t), u[|t|..]);
    if ops == [] {
      InterruptsOnlyAdd(RxSpec.Replay(t), u[|t|..]);
    }
  }

  lemma QueueGoesOn(t: seq<RxSpec.Event>, u: seq<RxSpec.Event>)
    requires WentOn(t, u, [])
    ensures RxSpec.Queue(RxSpec.Replay(t)) <= RxSpec.Queue(RxSpec.Replay(u))
  {
    RxSpec.RunAppend(RxSpec.INITIAL, t, u[|t|..]);
    assert t + u[|t|..] == u;
    InterruptsOnlyAdd(RxSpec.Replay(t), u[|t|..]);
  }

  /** Where the first packet lies in the ring. */
  lemma FirstPacket(r: Ring)
    requires Ok(r)
    ensures Packets(r) == [] <==> r.head == r.tail
    ensures Packets(r) != [] ==>
              var p := Packets(r)[0];
              && |p| < B_SZ
              && CircCnt(r.pIdx[CircNext(r.tail, P_SZ)], r.pIdx[r.tail], B_SZ) == |p|
              && forall j :: 0 <= j < |p| ==> r.buf[Mask(r.pIdx[r.tail] + j, B_SZ)] == p[j]
  {
    SlotOfHead(r);
    if Packets(r) != [] {
      var p := Packets(r)[0];
      assert p == Packet(r, 0);
      forall j | 0 <= j < |p|
        ensures r.buf[Mask(r.pIdx[r.tail] + j, B_SZ)] == p[j]
      {
        assert p[j] == At(r, j);
      }
    }
  }
}
