/** The two sides of the link together. */
module RoundTrip {
  import opened Crc
  import opened Wire
  import PacketBuf
  import RxSpec
  import RxRing
  import TxRing
  import PcCodec

  // ------------------------------------------------------------------
  // Transmissions are streams that frame_recv reads faithfully
  // ------------------------------------------------------------------

  lemma CleanEncode(x: Sent)
    ensures PcCodec.Clean(false, Encode(x)) && !EscapedAfter(false, Encode(x))
  {
    var body := Stuff(x.stored);
    StuffTransparent(x.stored);
    PcCodec.CleanBody(false, body);
    PcCodec.CleanFlag();
    hide PcCodec.Clean, Stuff;
    var open := if x.flagged then [FLAG] else [];
    PcCodec.CleanAppend(false, open, body);
    PcCodec.CleanAppend(false, open + body, [FLAG]);
  }

  lemma {:induction false} CleanTransmission(log: seq<Sent>)
    ensures PcCodec.Clean(false, Transmission(log)) && !EscapedAfter(false, Transmission(log))
    decreases |log|
  {
    hide PcCodec.Clean, Encode;
    PcCodec.CleanFlag();
    if |log| != 0 {
      CleanEncode(log[0]);
      CleanTransmission(log[1..]);
      PcCodec.CleanAppend(false, Encode(log[0]), Transmission(log[1..]));
    }
  }

  // ------------------------------------------------------------------
  // From the AVR to the PC
  // ------------------------------------------------------------------

  /** At any time of any run of the transmitter, the PC reads from what has been
      sent a beginning of what was accepted, and all of it once the ring is
      drained. */
  lemma AvrToPc(t: TxRing.Tx, wire: seq<byte>, log: seq<Sent>, cap: nat)
    requires TxRing.Live(t, wire, log)
    ensures PcCodec.ReceiveAll(wire, PcCodec.START, cap) <= Acceptable(log, cap)
    ensures PacketBuf.Packets(t.ring) == [] ==> PcCodec.ReceiveAll(wire, PcCodec.START, cap) == Acceptable(log, cap)
  {
    var rest := TxRing.Pending(PacketBuf.Packets(t.ring), t.started);
    assert wire + rest == Transmission(log) && (PacketBuf.Packets(t.ring) == [] ==> rest == []);
    hide PcCodec.Clean, PcCodec.ReceiveAll, Carried, TxRing.Live, TxRing.Pending;
    CleanTransmission(log);
    PcCodec.CleanAppend(false, wire, rest);
    PcCodec.ReceivesCarried(wire, cap);
    TransmissionCarries(log, cap) by {
      FirstFlagged(t, wire, log);
    }
    CarriedPrefix(wire, rest, cap);
    if rest == [] {
      assert wire + rest == wire;
    }
  }

  lemma FirstFlagged(t: TxRing.Tx, wire: seq<byte>, log: seq<Sent>)
    requires TxRing.Live(t, wire, log)
    ensures |log| != 0 ==> log[0].flagged
  {}

  /** The log of frame_send: payloads with their check bytes, low byte first. */
  predicate LogOf(log: seq<Sent>, payloads: seq<seq<byte>>) {
    |log| == |payloads| && forall i :: 0 <= i < |log| ==> log[i].stored == Stored(payloads[i])
  }

  predicate AllFit(payloads: seq<seq<byte>>, cap: nat) {
    forall i :: 0 <= i < |payloads| ==> |payloads[i]| + FRAME_CRC_SZ <= cap
  }

  lemma StoredAcceptable(p: seq<byte>, cap: nat)
    requires |p| + 2 <= cap
    ensures FromStored(Stored(p), cap) == [p]
  {
    CheckBytesCheck(p);
  }

  lemma {:induction false} AllAcceptable(log: seq<Sent>, payloads: seq<seq<byte>>, cap: nat)
    requires LogOf(log, payloads) && AllFit(payloads, cap)
    ensures Acceptable(log, cap) == payloads
    decreases |log|
  {
    hide FromStored, Stored;
    if |log| != 0 {
      StoredAcceptable(payloads[0], cap);
      AllAcceptable(log[1..], payloads[1..], cap);
    }
  }

  /** Whatever frame_send accepted reaches the PC: exactly those payloads, in that
      order, whether flags were shared or doubled. */
  lemma AvrToPcRoundTrip(t: TxRing.Tx, wire: seq<byte>, log: seq<Sent>, payloads: seq<seq<byte>>, cap: nat)
    requires TxRing.Live(t, wire, log) && LogOf(log, payloads) && AllFit(payloads, cap)
    ensures PcCodec.ReceiveAll(wire, PcCodec.START, cap) <= payloads
    ensures PacketBuf.Packets(t.ring) == [] ==> PcCodec.ReceiveAll(wire, PcCodec.START, cap) == payloads
  {
    AvrToPc(t, wire, log, cap);
    AllAcceptable(log, payloads, cap);
  }

  /** One turn of a sender: how many packets were queued and how many bytes in use, and
      whether the payload was accepted. */
  datatype Turn = Turn(queued: nat, used: nat, sent: bool)

  /** The payloads accepted, in order. */
  function Chosen(payloads: seq<seq<byte>>, turns: seq<Turn>): seq<seq<byte>>
    requires |turns| <= |payloads|
    decreases |turns|
  {
    if |turns| == 0 then []
    else
      var i := |turns| - 1;
      Chosen(payloads, turns[..i]) + if turns[i].sent then [payloads[i]] else []
  }

  function TotalStored(payloads: seq<seq<byte>>): nat
    decreases |payloads|
  {
    if |payloads| == 0 then 0
    else TotalStored(payloads[..|payloads| - 1]) + |payloads[|payloads| - 1]| + 2
  }

  /** Nothing is queued that was not accepted before, and a payload is left out only if
      six packets are queued or there is no room for it and its check bytes. */
  predicate Fair(t: Turn, payload: seq<byte>, before: seq<seq<byte>>) {
    && t.queued <= |before| && t.used <= TotalStored(before)
    && (t.queued <= 5 && t.used + |payload| + 2 <= 63 ==> t.sent)
    && (t.sent ==> t.queued <= 5 && |payload| + 2 <= 63)
  }

  predicate AllFair(turns: seq<Turn>, payloads: seq<seq<byte>>)
    requires |turns| <= |payloads|
  {
    forall i :: 0 <= i < |turns| ==> Fair(turns[i], payloads[i], Chosen(payloads, turns[..i]))
  }

  lemma ChosenSnoc(payloads: seq<seq<byte>>, turns: seq<Turn>, t: Turn)
    requires |turns| < |payloads|
    ensures Chosen(payloads, turns + [t]) == Chosen(payloads, turns) + if t.sent then [payloads[|turns|]] else []
  {
    assert (turns + [t])[..|turns|] == turns;
  }

  lemma FairSnoc(payloads: seq<seq<byte>>, turns: seq<Turn>, t: Turn)
    requires |turns| < |payloads| && AllFair(turns, payloads)
    requires Fair(t, payloads[|turns|], Chosen(payloads, turns))
    ensures AllFair(turns + [t], payloads)
  {
    hide Fair, Chosen;
    var all := turns + [t];
    forall i | 0 <= i < |all|
      ensures Fair(all[i], payloads[i], Chosen(payloads, all[..i]))
    {
      assert all[..i] == turns[..i];
      assert turns[..|turns|] == turns;
    }
  }

  /** So the first payloads are all accepted, as long as they are at most six and fit the
      ring together, whether or not anything is sent meanwhile. */
  lemma {:induction false} FirstAccepted(payloads: seq<seq<byte>>, turns: seq<Turn>, k: nat)
    requires k <= |turns| <= |payloads| && AllFair(turns, payloads)
    requires k <= 6 && TotalStored(payloads[..k]) <= 63
    ensures Chosen(payloads, turns[..k]) == payloads[..k]
    decreases k
  {
    if k == 0 {
      assert payloads[..k] == [];
    } else {
      var i := k - 1;
      assert payloads[..k][..i] == payloads[..i] && turns[..k][..i] == turns[..i];
      FirstAccepted(payloads, turns, i);
      assert Fair(turns[i], payloads[i], Chosen(payloads, turns[..i]));
      assert payloads[..k] == payloads[..i] + [payloads[i]];
    }
  }

  lemma {:induction false} ChosenGrows(payloads: seq<seq<byte>>, turns: seq<Turn>, k: nat)
    requires k <= |turns| <= |payloads|
    ensures Chosen(payloads, turns[..k]) <= Chosen(payloads, turns)
    decreases |turns|
  {
    if k == |turns| {
      assert turns[..k] == turns;
    } else {
      var i := |turns| - 1;
      assert turns[..i][..k] == turns[..k];
      ChosenGrows(payloads, turns[..i], k);
    }
  }

  lemma TotalSnoc(q: seq<seq<byte>>, p: seq<byte>)
    ensures TotalStored(q + [p]) == TotalStored(q) + |p| + 2
  {
    assert (q + [p])[..|q|] == q;
  }

  /** The AVR from power-up on: frame_send is called for one payload after the other,
      whenever at most five packets are queued, while the transmit interrupt, which
      can fire `due` times in all, drains the ring. A payload is left out only if at
      its turn six packets were queued or there was no room for it. What the PC
      reads from the wire is a beginning of the payloads accepted, and all of them
      once the ring is drained. The run ends early, with `stopped`, only when the
      interrupt is found enabled over a drained ring: then nothing must be sent any
      more. */
  method SendFromAvr(payloads: seq<seq<byte>>, due: nat)
    returns (tx: TxRing.Transmitter, accepted: seq<seq<byte>>, stopped: bool, ghost turns: seq<Turn>)
    requires forall p :: p in payloads ==> |p| < 256
    ensures |turns| <= |payloads| && (payloads != [] ==> turns != []) && (!stopped ==> |turns| == |payloads|)
    ensures AllFair(turns, payloads) && accepted == Chosen(payloads, turns)
    ensures forall k | 0 <= k <= |turns| && k <= 6 && TotalStored(payloads[..k]) <= 63 :: payloads[..k] <= accepted
    ensures !stopped ==> tx.Valid()
    ensures TxRing.Live(tx.State(), tx.wire, tx.log) && LogOf(tx.log, accepted)
    ensures stopped ==> tx.udrie && PacketBuf.Packets(tx.Snapshot()) == []
    ensures |tx.wire| + tx.due == due
    ensures forall cap: nat | AllFit(accepted, cap) :: ReadsOnPc(tx.wire, accepted, cap, PacketBuf.Packets(tx.Snapshot()) == [])
  {
    tx := new TxRing.Transmitter(due);
    accepted, stopped, turns := [], false, [];
    hide TxRing.Live, PcCodec.ReceiveAll, Stored, PacketBuf.Ordered, PacketBuf.Used, PacketBuf.Packet, PacketBuf.Packets, Chosen, AllFair, TotalStored, LogOf;
    PowerUpTurns(payloads, tx.Snapshot());
    EmptyRing(tx.State(), tx.wire, tx.log);
    var i := 0;
    while i < |payloads| && !stopped
      invariant i == |turns| <= |payloads| && fresh(tx) && fresh(tx.buf) && fresh(tx.pIdx)
      invariant i == 0 ==> !stopped
      invariant AllFair(turns, payloads) && accepted == Chosen(payloads, turns)
      invariant tx.Sound() && (!stopped ==> tx.Valid())
      invariant TxRing.Live(tx.State(), tx.wire, tx.log) && LogOf(tx.log, accepted)
      invariant stopped ==> tx.udrie && tx.head == tx.tail
      invariant |tx.wire| + tx.due == due
      invariant !stopped ==> PacketBuf.Count(tx.Snapshot()) <= |accepted| && PacketBuf.Used(tx.Snapshot()) <= TotalStored(accepted)
    {
      tx.Interrupts();
      ghost var turn := Turn(PacketBuf.Count(tx.Snapshot()), PacketBuf.Used(tx.Snapshot()), false);
      if PacketBuf.CircCnt(tx.head, tx.tail, PacketBuf.P_SZ) <= 5 {
        var before := tx.head;
        ghost var log := tx.log;
        ghost var sent, clobbered, flagged := tx.FrameSend(payloads[i]);
        if tx.head != before {
          TotalSnoc(accepted, payloads[i]);
          LogSnoc(log, flagged, accepted, payloads[i]);
          turn := turn.(sent := true);
          accepted := accepted + [payloads[i]];
          stopped := tx.head == tx.tail;
        }
      }
      FairSnoc(payloads, turns, turn);
      ChosenSnoc(payloads, turns, turn);
      turns := turns + [turn];
      i := i + 1;
    }
    LiveIsOk(tx.State(), tx.wire, tx.log);
    EmptyRing(tx.State(), tx.wire, tx.log);
    forall k | 0 <= k <= |turns| && k <= 6 && TotalStored(payloads[..k]) <= 63
      ensures payloads[..k] <= accepted
    {
      FirstAccepted(payloads, turns, k);
      ChosenGrows(payloads, turns, k);
    }
    forall cap: nat | AllFit(accepted, cap)
      ensures ReadsOnPc(tx.wire, accepted, cap, PacketBuf.Packets(tx.Snapshot()) == [])
    {
      AvrToPcRoundTrip(tx.State(), tx.wire, tx.log, accepted, cap);
    }
  }

  lemma LogSnoc(log: seq<Sent>, flagged: bool, payloads: seq<seq<byte>>, p: seq<byte>)
    requires LogOf(log, payloads)
    ensures LogOf(log + [Sent(Stored(p), flagged)], payloads + [p])
  {
    hide Stored;
  }

  /** Whether the ring is empty can be told from its indices. */
  lemma EmptyRing(t: TxRing.Tx, wire: seq<byte>, log: seq<Sent>)
    requires TxRing.Live(t, wire, log)
    ensures PacketBuf.Packets(t.ring) == [] <==> t.ring.head == t.ring.tail
    ensures LogOf([], [])
  {}

  lemma PowerUpTurns(payloads: seq<seq<byte>>, r: PacketBuf.Ring)
    requires PacketBuf.Ok(r) && PacketBuf.Packets(r) == []
    ensures AllFair([], payloads) && Chosen(payloads, []) == [] && TotalStored([]) == 0
    ensures PacketBuf.Count(r) == 0 && PacketBuf.Used(r) == 0
  {}

  /** What the PC reads from the wire is a beginning of the payloads, or all of them. */
  predicate ReadsOnPc(wire: seq<byte>, payloads: seq<seq<byte>>, cap: nat, all: bool) {
    var got := PcCodec.ReceiveAll(wire, PcCodec.START, cap);
    got <= payloads && (all ==> got == payloads)
  }

  lemma LiveIsOk(t: TxRing.Tx, wire: seq<byte>, log: seq<Sent>)
    requires TxRing.Live(t, wire, log)
    ensures PacketBuf.Ok(t.ring)
  {}

  /** A packet of the builder, whose check bytes come high byte first, is received
      exactly if the two are equal. */
  lemma BuilderFrameIff(built: seq<byte>, cap: nat)
    requires |built| + 2 <= cap
    ensures var c := CheckBytes(built);
            FromStored(built + [c[1], c[0]], cap) == (if c[0] == c[1] then [built] else [])
  {
    SwappedCheckBytes(built);
  }

  // ------------------------------------------------------------------
  // From the PC to the AVR
  // ------------------------------------------------------------------

  /** What the PC writes for a list of payloads. */
  function PcLog(payloads: seq<seq<byte>>, littleEndian: bool): seq<Sent> {
    seq(|payloads|, i requires 0 <= i < |payloads| =>
      Sent(payloads[i] + PcCodec.SentCheck(payloads[i], littleEndian), true))
  }

  /** Sending payloads one after the other writes their transmission. */
  method SendAll(out: PcCodec.OutStream, payloads: seq<seq<byte>>, littleEndian: bool)
    modifies out
    ensures out.written == old(out.written) + Transmission(PcLog(payloads, littleEndian))
  {
    hide Encode, PcCodec.SentCheck;
    ghost var log := PcLog(payloads, littleEndian);
    var i := 0;
    while i < |payloads|
      invariant i <= |payloads|
      invariant out.written == old(out.written) + Transmission(log[..i])
    {
      var n := PcCodec.FrameSend(out, payloads[i], littleEndian);
      TransmissionSnoc(log[..i], log[i]);
      assert log[..i + 1] == log[..i] + [log[i]];
      i := i + 1;
    }
    assert log[..i] == log;
  }

  lemma PcLogIs(payloads: seq<seq<byte>>)
    ensures LogOf(PcLog(payloads, true), payloads)
    ensures |PcLog(payloads, true)| != 0 ==> PcLog(payloads, true)[0].flagged
  {}

  /** The payloads that a little-endian host sends, of up to 61 bytes each, are the
      packets published on the AVR, whatever the consumer does meanwhile, unless
      room runs out; and a consumer that reads packets whole and ends with an empty
      queue has collected exactly those. */
  lemma PcToAvrRoundTrip(payloads: seq<seq<byte>>, t: seq<RxSpec.Event>)
    requires AllFit(payloads, RxSpec.CAPACITY)
    requires RxSpec.Symbols(t) == Transmission(PcLog(payloads, true))
    requires RxSpec.Replay(t).lost == 0
    ensures RxSpec.Replay(t).published == payloads
    ensures RxSpec.ReadsWhole(RxSpec.INITIAL, t) && RxSpec.Queue(RxSpec.Replay(t)) == [] ==>
              RxSpec.Collected(RxSpec.INITIAL, t) == payloads
  {
    hide RxSpec.Replay, RxSpec.Queue, Carried;
    RxSpec.ReplayIsCarried(t);
    PcLogIs(payloads);
    hide PcLog;
    TransmissionCarries(PcLog(payloads, true), RxSpec.CAPACITY);
    AllAcceptable(PcLog(payloads, true), payloads, RxSpec.CAPACITY);
    if RxSpec.ReadsWhole(RxSpec.INITIAL, t) && RxSpec.Queue(RxSpec.Replay(t)) == [] {
      Collecting(t);
    }
  }

  lemma Collecting(t: seq<RxSpec.Event>)
    requires RxSpec.ReadsWhole(RxSpec.INITIAL, t) && RxSpec.Queue(RxSpec.Replay(t)) == []
    ensures RxSpec.Collected(RxSpec.INITIAL, t) == RxSpec.Replay(t).published
  {
    RxSpec.CollectsPublished(RxSpec.INITIAL, t);
    RxSpec.QueueParts(RxSpec.Replay(t));
  }

  /** In particular nothing is lost if every byte finds the queue drained. */
  lemma DrainedRoundTrip(payloads: seq<seq<byte>>, t: seq<RxSpec.Event>)
    requires AllFit(payloads, RxSpec.CAPACITY)
    requires RxSpec.Symbols(t) == Transmission(PcLog(payloads, true))
    requires RxSpec.Drained(RxSpec.INITIAL, t)
    ensures RxSpec.Replay(t).published == payloads
    ensures RxSpec.ReadsWhole(RxSpec.INITIAL, t) && RxSpec.Queue(RxSpec.Replay(t)) == [] ==>
              RxSpec.Collected(RxSpec.INITIAL, t) == payloads
  {
    RxSpec.DrainedRun(RxSpec.INITIAL, t);
    hide PcLog, AllFit, RxSpec.Symbols;
    PcToAvrRoundTrip(payloads, t);
  }

  lemma {:induction false} SymbolsAppend(t: seq<RxSpec.Event>, u: seq<RxSpec.Event>)
    ensures RxSpec.Symbols(t + u) == RxSpec.Symbols(t) + RxSpec.Symbols(u)
    decreases |t|
  {
    if |t| == 0 {
      assert t + u == u;
    } else {
      assert (t + u)[1..] == t[1..] + u;
      SymbolsAppend(t[1..], u);
    }
  }

  lemma SymbolsOfFlag()
    ensures RxSpec.Symbols([RxSpec.Byte(FLAG)]) == [FLAG]
  {
    assert [RxSpec.Byte(FLAG)][1..] == [];
    assert RxSpec.Symbols([RxSpec.Byte(FLAG)]) == [FLAG] + RxSpec.Symbols([]);
  }

  lemma SymbolsOfArrival(x: RxSpec.Arrival, payload: seq<byte>)
    requires RxSpec.Symbols(x.gap) == [] && RxSpec.Symbols(x.body) == Stuff(Stored(payload))
    ensures RxSpec.Symbols(RxSpec.Arrives(x)) == Encode(Sent(Stored(payload), true))
  {
    hide RxSpec.Symbols, Stuff;
    SymbolsOfFlag();
    var flag := [RxSpec.Byte(FLAG)];
    SymbolsAppend(x.gap, flag);
    SymbolsAppend(x.body, flag);
    SymbolsAppend(x.gap + flag, x.body + flag);
  }

  lemma {:induction false} SymbolsOfFrames(xs: seq<RxSpec.Arrival>, payloads: seq<seq<byte>>)
    requires RxSpec.FramesOf(xs, payloads)
    ensures RxSpec.Symbols(RxSpec.Arrive(xs)) == Transmission(PcLog(payloads, true))
    decreases |xs|
  {
    hide RxSpec.Symbols, Stuff, Encode, Stored;
    if |xs| == 0 {
      assert RxSpec.Symbols([]) == [] by { SymbolsOfNothing(); }
    } else {
      SymbolsOfFrames(xs[1..], payloads[1..]);
      SymbolsOfArrival(xs[0], payloads[0]);
      SymbolsAppend(RxSpec.Arrives(xs[0]), RxSpec.Arrive(xs[1..]));
      assert PcLog(payloads, true)[1..] == PcLog(payloads[1..], true);
      assert PcLog(payloads, true)[0] == Sent(Stored(payloads[0]), true) by { StoredIsSent(payloads[0]); }
    }
  }

  lemma SymbolsOfNothing()
    ensures RxSpec.Symbols([]) == []
  {}

  lemma StoredIsSent(p: seq<byte>)
    ensures p + PcCodec.SentCheck(p, true) == Stored(p)
  {}

  /** What a little-endian host sends is published whole if every opening flag finds
      a free slot and room for the frame behind it: nothing needs to be drained
      sooner. A queue that is drained at every byte is a special case. */
  lemma RoomyRoundTrip(payloads: seq<seq<byte>>, xs: seq<RxSpec.Arrival>)
    requires RxSpec.FramesOf(xs, payloads)
    requires RxSpec.Roomy(RxSpec.INITIAL, xs, payloads)
             || (RxSpec.Drained(RxSpec.INITIAL, RxSpec.Arrive(xs)) && AllFit(payloads, RxSpec.CAPACITY))
    ensures var t := RxSpec.Arrive(xs);
            && RxSpec.Symbols(t) == Transmission(PcLog(payloads, true))
            && RxSpec.Replay(t).published == payloads && RxSpec.Replay(t).lost == 0
            && (RxSpec.ReadsWhole(RxSpec.INITIAL, t) && RxSpec.Queue(RxSpec.Replay(t)) == [] ==>
                  RxSpec.Collected(RxSpec.INITIAL, t) == payloads)
  {
    SymbolsOfFrames(xs, payloads);
    if !RxSpec.Roomy(RxSpec.INITIAL, xs, payloads) {
      RxSpec.DrainedIsRoomy(RxSpec.INITIAL, xs, payloads);
    }
    RxSpec.AllPublished(RxSpec.INITIAL, xs, payloads);
    var t := RxSpec.Arrive(xs);
    if RxSpec.ReadsWhole(RxSpec.INITIAL, t) && RxSpec.Queue(RxSpec.Replay(t)) == [] {
      Collecting(t);
    }
  }

  /** The packets published so far are a beginning of the payloads sent. */
  lemma PublishedSoFar(payloads: seq<seq<byte>>, t: seq<RxSpec.Event>)
    requires AllFit(payloads, RxSpec.CAPACITY)
    requires RxSpec.Symbols(t) <= Transmission(PcLog(payloads, true))
    requires RxSpec.Replay(t).lost == 0
    ensures RxSpec.Replay(t).published <= payloads
    ensures RxSpec.Symbols(t) == Transmission(PcLog(payloads, true)) ==> RxSpec.Replay(t).published == payloads
  {
    hide RxSpec.Replay, RxSpec.Symbols, Carried;
    RxSpec.ReplayIsCarried(t);
    PcLogIs(payloads);
    hide PcLog;
    var sent := Transmission(PcLog(payloads, true));
    TransmissionCarries(PcLog(payloads, true), RxSpec.CAPACITY);
    AllAcceptable(PcLog(payloads, true), payloads, RxSpec.CAPACITY);
    CarriedPrefix(RxSpec.Symbols(t), sent[|RxSpec.Symbols(t)|..], RxSpec.CAPACITY);
    assert RxSpec.Symbols(t) + sent[|RxSpec.Symbols(t)|..] == sent;
  }

  /** Bytes that arrive without line errors. */
  function Bytes(s: seq<byte>): seq<RxSpec.Event> {
    seq(|s|, i requires 0 <= i < |s| => RxSpec.Byte(s[i]))
  }

  lemma {:induction false} SymbolsOfBytes(s: seq<byte>)
    ensures RxSpec.Symbols(Bytes(s)) == s
    decreases |s|
  {
    if |s| == 0 {
      assert s == [];
    } else {
      assert Bytes(s)[1..] == Bytes(s[1..]);
      SymbolsOfBytes(s[1..]);
    }
  }

  lemma {:induction false} SymbolsOfArrived(t: seq<RxSpec.Event>)
    ensures RxSpec.Symbols(RxRing.Arrived(t)) == RxSpec.Symbols(t)
    decreases |t|
  {
    if |t| != 0 {
      SymbolsOfArrived(t[1..]);
      SymbolsAppend(if RxRing.IsConsumer(t[0]) then [] else [t[0]], RxRing.Arrived(t[1..]));
      SymbolsOfOne(t[0]);
      SymbolsOfNothing();
    }
  }

  lemma SymbolsOfOne(e: RxSpec.Event)
    ensures RxSpec.Symbols([e]) == match e case Byte(b) => [b] case LineError => [RESET] case _ => []
  {
    assert [e][1..] == [];
    assert RxSpec.Symbols([]) == [];
  }

  /** What has arrived is a beginning of what was sent, and all of it when nothing is
      still to come. */
  lemma SymbolsOfLine(t: seq<RxSpec.Event>, coming: seq<RxRing.Sample>, sent: seq<byte>)
    requires RxRing.Arrived(t) + RxRing.Samples(coming) == Bytes(sent)
    ensures RxSpec.Symbols(t) <= sent
    ensures coming == [] ==> RxSpec.Symbols(t) == sent
  {
    hide RxSpec.Symbols, RxRing.Arrived;
    SymbolsOfArrived(t);
    SymbolsOfBytes(sent);
    SymbolsAppend(RxRing.Arrived(t), RxRing.Samples(coming));
    if coming == [] {
      assert RxRing.Samples(coming) == [];
      SymbolsOfNothing();
    }
  }

  /** The main loop of the AVR, any number of rounds of it, while the receive interrupt
      takes what a little-endian host sends, with `before` delivered already; at
      power-up that is nothing. As long as nothing is lost for lack of room, what is
      found in the buffer are the next payloads, in order, each once and whole. Every
      round delivers one as long as those queued at the call are not empty; so with
      enough rounds all are delivered, once everything has arrived. */
  method ReceiveFromPc(rx: RxRing.Receiver, dst: array<byte>, rounds: nat,
                       ghost before: seq<seq<byte>>, ghost payloads: seq<seq<byte>>)
    returns (delivered: seq<seq<byte>>)
    requires rx.Valid() && dst != rx.buf && dst as object != rx.pIdx
    requires rx.Abs().readCt == 0 && before == rx.Abs().published[..rx.Abs().popped]
    requires rx.Line() == Bytes(Transmission(PcLog(payloads, true)))
    requires AllFit(payloads, RxSpec.CAPACITY)
    requires forall i :: 0 <= i < |payloads| ==> |payloads[i]| <= dst.Length
    modifies rx, rx.buf, rx.pIdx, dst
    ensures rx.Valid() && rx.Abs().readCt == 0 && rx.Line() == old(rx.Line())
    ensures PacketBuf.Min(rounds, RxRing.Ready(old(rx.Queue()))) <= |delivered| <= rounds
    ensures rx.Abs().lost == 0 ==>
              && before + delivered <= payloads
              && before + delivered == rx.Abs().published[..rx.Abs().popped]
              && (rx.coming == [] && rx.Queue() == [] ==> before + delivered == payloads)
    ensures rx.Abs().lost == 0 && old(rx.coming) == [] && [] !in payloads && rounds >= |payloads| ==>
              before + delivered == payloads
  {
    hide RxSpec.Symbols, RxSpec.Replay, PcLog, RxSpec.Queue, RxRing.Ready, Transmission, RxRing.Arrived, RxRing.Samples, AllFit;
    ghost var a0, t0 := rx.Abs(), rx.trace;
    ghost var sent := Transmission(PcLog(payloads, true));
    SymbolsOfLine(rx.trace, rx.coming, sent);
    delivered := rx.Polls(dst, rounds);
    SymbolsOfLine(rx.trace, rx.coming, sent);
    ghost var a := rx.Abs();
    if a.lost == 0 {
      PublishedSoFar(payloads, rx.trace);
      LostBefore(t0, rx.trace);
      PublishedSoFar(payloads, t0);
      DeliveredNext(a0, a, delivered, dst.Length, payloads);
      RxSpec.QueueParts(a);
      if [] !in payloads {
        AllReady(a0, payloads);
      }
    }
  }

  lemma LostBefore(t: seq<RxSpec.Event>, u: seq<RxSpec.Event>)
    requires t <= u
    ensures RxSpec.Replay(t).lost <= RxSpec.Replay(u).lost
  {
    RxSpec.RunAppend(RxSpec.INITIAL, t, u[|t|..]);
    assert t + u[|t|..] == u;
  }

  lemma DeliveredNext(a: RxSpec.Rx, b: RxSpec.Rx, delivered: seq<seq<byte>>, n: nat, payloads: seq<seq<byte>>)
    requires RxRing.Delivered(a, b, delivered, n) && a.popped <= |a.published| && b.published <= payloads
    requires forall i :: 0 <= i < |payloads| ==> |payloads[i]| <= n
    ensures a.published[..a.popped] + delivered == b.published[..b.popped]
    ensures |delivered| == b.popped - a.popped
  {
    var new_ := b.published[a.popped..b.popped];
    RxRing.ClippedWhole(new_, n);
  }

  lemma AllReady(a: RxSpec.Rx, payloads: seq<seq<byte>>)
    requires RxSpec.Valid(a) && a.readCt == 0 && a.published <= payloads && [] !in payloads
    ensures RxRing.Ready(RxSpec.Queue(a)) == |RxSpec.Queue(a)| == |a.published| - a.popped
  {
    forall i | 0 <= i < |RxSpec.Queue(a)|
      ensures RxSpec.Queue(a)[i] != []
    {
      RxRing.QueueAt(a, i);
      assert payloads[a.popped + i] in payloads;
    }
    NoneEmpty(RxSpec.Queue(a));
  }

  lemma {:induction false} NoneEmpty(q: seq<seq<byte>>)
    requires forall i :: 0 <= i < |q| ==> q[i] != []
    ensures RxRing.Ready(q) == |q|
    decreases |q|
  {
    if |q| != 0 {
      NoneEmpty(q[1..]);
    }
  }

  // ------------------------------------------------------------------
  // The two decoders
  // ------------------------------------------------------------------

  /** On a stream without aborts, line errors and escapes directly before flags, the
      PC with a buffer of 63 bytes reads the packets that the AVR publishes, unless
      the AVR runs out of room. */
  lemma DecodersAgree(t: seq<RxSpec.Event>)
    requires PcCodec.Clean(false, RxSpec.Symbols(t))
    requires RxSpec.Replay(t).lost == 0
    ensures PcCodec.ReceiveAll(RxSpec.Symbols(t), PcCodec.START, RxSpec.CAPACITY) == RxSpec.Replay(t).published
  {
    PcCodec.ReceivesCarried(RxSpec.Symbols(t), RxSpec.CAPACITY);
    RxSpec.ReplayIsCarried(t);
  }
}
