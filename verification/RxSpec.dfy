/** What the receiving side of the AVR (avr/frame_async.c) is for, stated on
    values: a decoder with an unbounded list of published packets, of which the
    consumer has popped some and read a part of the next. */
module RxSpec {
  import opened Crc
  import opened Wire

  /** Stored bytes that fit the 64-byte ring, one slot being kept free. */
  const CAPACITY: nat := 63

  /** Packets that can be queued at once. */
  const SLOTS: nat := 6

  /** What reaches the receiver: bytes and line errors from the interrupt, and the
      consumer reading bytes of the current packet or advancing to the next. */
  datatype Event = Byte(data: byte) | LineError | Take(n: nat) | Next

  datatype Rx = Rx(
    published: seq<seq<byte>>, // every packet accepted so far
    popped: nat,               // how many of them the consumer has left behind
    readCt: nat,               // how much of the current one it has read
    cur: seq<byte>,            // stored bytes of the frame being received
    started: bool,
    escaped: bool,
    lost: nat)                 // frames given up for lack of room

  const INITIAL := Rx([], 0, 0, [], false, false, 0)

  predicate Valid(a: Rx) {
    && a.popped <= |a.published|
    && (a.popped < |a.published| ==> a.readCt <= |a.published[a.popped]|)
    && (a.popped == |a.published| ==> a.readCt == 0)
    && (!a.started ==> a.cur == [] && !a.escaped)
    && |a.cur| <= CAPACITY
  }

  /** The packets in the queue, the current one without what was read of it. */
  function Queue(a: Rx): (q: seq<seq<byte>>)
    requires Valid(a)
    ensures |q| == |a.published| - a.popped
  {
    if a.popped == |a.published| then []
    else [a.published[a.popped][a.readCt..]] + a.published[a.popped + 1..]
  }

  function Total(q: seq<seq<byte>>): nat
    decreases |q|
  {
    if |q| == 0 then 0 else |q[0]| + Total(q[1..])
  }

  function Drop(a: Rx): Rx {
    a.(cur := [], started := false, escaped := false)
  }

  /** A flag closes the frame before it, if there is one, and opens the next. */
  function OnFlag(a: Rx): Rx
    requires Valid(a)
  {
    var open := a.(cur := [], started := true, escaped := false);
    if a.cur == [] || !Checks(a.cur) then open
    else if |Queue(a)| < SLOTS then
      open.(published := a.published + [Trim(a.cur)])
    else open.(lost := a.lost + 1)
  }

  function OnData(a: Rx, d: byte): Rx
    requires Valid(a)
  {
    if Total(Queue(a)) + |a.cur| < CAPACITY then a.(cur := a.cur + [d], escaped := false)
    else if |a.cur| == CAPACITY then Drop(a)
    else Drop(a).(lost := a.lost + 1)
  }

  function OnByte(a: Rx, b: byte): Rx
    requires Valid(a)
  {
    if b == FLAG then OnFlag(a)
    else if !a.started then a
    else if b == RESET then Drop(a)
    else if b == ESC then a.(escaped := true)
    else OnData(a, if a.escaped then Masked(b) else b)
  }

  function OnTake(a: Rx, n: nat): Rx
    requires Valid(a)
  {
    if a.popped == |a.published| then a
    else if a.readCt + n <= |a.published[a.popped]| then a.(readCt := a.readCt + n)
    else a.(readCt := |a.published[a.popped]|)
  }

  function OnNext(a: Rx): Rx
    requires Valid(a)
  {
    if a.popped == |a.published| then a else a.(popped := a.popped + 1, readCt := 0)
  }

  function Step(a: Rx, e: Event): (r: Rx)
    requires Valid(a)
    ensures Valid(r)
    ensures a.published <= r.published && a.popped <= r.popped && a.lost <= r.lost
  {
    match e
    case Byte(b) => OnByte(a, b)
    case LineError => Drop(a)
    case Take(n) => OnTake(a, n)
    case Next => OnNext(a)
  }

  function Run(a: Rx, t: seq<Event>): (r: Rx)
    requires Valid(a)
    ensures Valid(r)
    ensures a.published <= r.published && a.popped <= r.popped && a.lost <= r.lost
    decreases |t|
  {
    if |t| == 0 then a else Run(Step(a, t[0]), t[1..])
  }

  function Replay(t: seq<Event>): (r: Rx)
    ensures Valid(r)
  {
    Run(INITIAL, t)
  }

  lemma {:induction false} RunAppend(a: Rx, t: seq<Event>, u: seq<Event>)
    requires Valid(a)
    ensures Run(a, t + u) == Run(Run(a, t), u)
    decreases |t|
  {
    hide Step, Valid;
    if |t| == 0 {
      assert t + u == u;
    } else {
      assert (t + u)[1..] == t[1..] + u;
      RunAppend(Step(a, t[0]), t[1..], u);
    }
  }

  lemma ReplaySnoc(t: seq<Event>, e: Event)
    ensures Replay(t + [e]) == Step(Replay(t), e)
  {
    hide Step;
    RunAppend(INITIAL, t, [e]);
    assert [e][1..] == [];
    assert Run(Replay(t), [e]) == Run(Step(Replay(t), e), []);
  }

  // ------------------------------------------------------------------
  // The stream decides what is published
  // ------------------------------------------------------------------

  /** The bytes that reach the decoder; a line error acts as an abort. */
  function Symbols(t: seq<Event>): seq<byte>
    decreases |t|
  {
    if |t| == 0 then []
    else (match t[0] case Byte(b) => [b] case LineError => [RESET] case _ => []) + Symbols(t[1..])
  }

  /** What a decoder in state `a` has still to publish of the stream `s`, were it
      never short of room. */
  function Future(a: Rx, s: seq<byte>): seq<seq<byte>> {
    Expected(a.started, a.escaped, a.cur, s, CAPACITY)
  }

  /** `x` is `y` with some members left out. */
  predicate IsPartOf<T(==)>(x: seq<T>, y: seq<T>)
    decreases |y|
  {
    if |x| == 0 then true
    else if |y| == 0 then false
    else (x[0] == y[0] && IsPartOf(x[1..], y[1..])) || IsPartOf(x, y[1..])
  }

  lemma {:induction false} PartOfLength<T>(x: seq<T>, y: seq<T>)
    requires IsPartOf(x, y)
    ensures |x| <= |y|
    ensures |x| == |y| ==> x == y
    decreases |y|
  {
    if |x| != 0 {
      if x[0] == y[0] && IsPartOf(x[1..], y[1..]) {
        PartOfLength(x[1..], y[1..]);
        assert x == [x[0]] + x[1..] && y == [y[0]] + y[1..];
      } else {
        PartOfLength(x, y[1..]);
      }
    }
  }

  /** What one step publishes. */
  function Fresh(a: Rx, a': Rx): seq<seq<byte>>
    requires a.published <= a'.published
  {
    a'.published[|a.published|..]
  }

  /** The relation of what was expected before a step to what was published by it
      and is expected after it: nothing changes, or one frame was lost. */
  predicate Accounted(before: seq<seq<byte>>, now: seq<seq<byte>>, after: seq<seq<byte>>, lost: nat) {
    || before == now + after
    || (lost == 1 && now == [] && |before| == 1 + |after| && before[1..] == after)
  }

  lemma FlagAccounted(a: Rx, s: seq<byte>)
    requires Valid(a)
    ensures var r := OnFlag(a);
            Accounted(Future(a, [FLAG] + s), Fresh(a, r), Future(r, s), r.lost - a.lost)
  {
    hide Checks, CarriedAfterFlag, Expected;
    var r := OnFlag(a);
    ExpectedAfterFlag(s, CAPACITY);
    var rest := CarriedAfterFlag(s, CAPACITY);
    if a.started {
      ExpectedOnFlag(a.escaped, a.cur, s, CAPACITY);
      if a.cur != [] && Checks(a.cur) {
        assert ([Trim(a.cur)] + rest)[1..] == rest;
      }
    } else {
      ExpectedIdle(a.escaped, a.cur, [FLAG] + s, CAPACITY);
      CarriedFromFlag(s, CAPACITY);
    }
  }

  lemma DataAccounted(a: Rx, d: byte, s: seq<byte>)
    requires Valid(a) && a.started
    ensures var r := OnData(a, d);
            Accounted(Expected(true, false, a.cur + [d], s, CAPACITY), Fresh(a, r), Future(r, s), r.lost - a.lost)
  {
    var r := OnData(a, d);
    hide Total, Queue, CarriedAfterFlag, Checks, Unstuff;
    if !r.started {
      ExpectedIdle(false, [], s, CAPACITY);
      if |a.cur| == CAPACITY {
        ExpectedOnFull(a.cur + [d], false, s, CAPACITY);
      } else if FlagAt(s) < |s| {
        var rest := CarriedAfterFlag(s[FlagAt(s) + 1..], CAPACITY);
        var done := Completed(false, a.cur + [d], s[..FlagAt(s)], CAPACITY);
        assert done != [] ==> (done + rest)[1..] == rest;
        assert done == [] ==> done + rest == rest;
      }
    }
  }

  lemma ByteAccounted(a: Rx, b: byte, s: seq<byte>)
    requires Valid(a)
    ensures var r := OnByte(a, b);
            Accounted(Future(a, [b] + s), Fresh(a, r), Future(r, s), r.lost - a.lost)
  {
    hide Expected, Carried, OnFlag, OnData;
    var r := OnByte(a, b);
    if b == FLAG {
      FlagAccounted(a, s);
    } else if !a.started {
      ExpectedIdle(a.escaped, a.cur, [b] + s, CAPACITY);
      ExpectedIdle(a.escaped, a.cur, s, CAPACITY);
      CarriedOnNoise(b, s, CAPACITY);
    } else if b == RESET {
      ExpectedOnReset(a.escaped, a.cur, s, CAPACITY);
      ExpectedIdle(false, [], s, CAPACITY);
    } else if b == ESC {
      ExpectedOnEscape(a.escaped, a.cur, s, CAPACITY);
    } else {
      ExpectedOnData(a.escaped, a.cur, b, s, CAPACITY);
      DataAccounted(a, if a.escaped then Masked(b) else b, s);
    }
  }

  lemma PartOfAppend(p: seq<seq<byte>>, x: seq<seq<byte>>, y: seq<seq<byte>>)
    requires IsPartOf(x, y)
    ensures IsPartOf(p + x, p + y)
    decreases |p|
  {
    if |p| == 0 {
      assert p + x == x && p + y == y;
    } else {
      PartOfAppend(p[1..], x, y);
      assert (p + x)[1..] == p[1..] + x && (p + y)[1..] == p[1..] + y;
    }
  }

  lemma AccountedOnward(before: seq<seq<byte>>, now: seq<seq<byte>>, after: seq<seq<byte>>,
                        lost: nat, later: seq<seq<byte>>, lostLater: nat)
    requires Accounted(before, now, after, lost)
    requires IsPartOf(later, after) && |after| <= |later| + lostLater
    ensures IsPartOf(now + later, before) && |before| <= |now + later| + lost + lostLater
  {
    if before == now + after {
      PartOfAppend(now, later, after);
    } else {
      assert now + later == later;
    }
  }

  lemma ConsumerAccounted(a: Rx, e: Event, s: seq<byte>)
    requires Valid(a) && !e.Byte?
    ensures var r := Step(a, e);
            Accounted(Future(a, (if e.LineError? then [RESET] else []) + s), Fresh(a, r), Future(r, s), r.lost - a.lost)
  {
    hide Expected, Carried;
    var r := Step(a, e);
    if e.LineError? {
      ExpectedIdle(false, [], s, CAPACITY);
      if a.started {
        ExpectedOnReset(a.escaped, a.cur, s, CAPACITY);
      } else {
        ExpectedIdle(a.escaped, a.cur, [RESET] + s, CAPACITY);
        CarriedOnNoise(RESET, s, CAPACITY);
      }
    } else {
      assert [] + s == s;
    }
  }

  /** The main theorem about reception. Whatever the consumer does meanwhile, the
      packets published over a run are those the stream carries, in order, each
      once and whole, except for frames that were lost for lack of room; and no
      more are missing than were counted as lost. */
  lemma {:induction false} PublishedIsCarried(a: Rx, t: seq<Event>)
    requires Valid(a)
    ensures var r := Run(a, t);
            && IsPartOf(Fresh(a, r), Future(a, Symbols(t)))
            && |Future(a, Symbols(t))| <= |Fresh(a, r)| + (r.lost - a.lost)
    decreases |t|
  {
    hide Future, Step, Valid, Accounted, Fresh, IsPartOf;
    if |t| == 0 {
      FutureOfNothing(a);
      NothingFresh(a);
    } else {
      var b := Step(a, t[0]);
      var s := Symbols(t[1..]);
      match t[0] {
        case Byte(d) => ByteAccounted(a, d, s); assert Step(a, t[0]) == OnByte(a, d) by { StepByte(a, d); }
        case _ => ConsumerAccounted(a, t[0], s);
      }
      PublishedIsCarried(b, t[1..]);
      var r := Run(a, t);
      AccountedOnward(Future(a, Symbols(t)), Fresh(a, b), Future(b, s), b.lost - a.lost, Fresh(b, r), r.lost - b.lost);
      FreshJoin(a, b, r);
    }
  }

  lemma FreshJoin(a: Rx, b: Rx, r: Rx)
    requires a.published <= b.published <= r.published
    ensures Fresh(a, r) == Fresh(a, b) + Fresh(b, r)
  {}

  lemma StepByte(a: Rx, d: byte)
    requires Valid(a)
    ensures Step(a, Byte(d)) == OnByte(a, d)
  {}

  lemma NothingFresh(a: Rx)
    ensures Fresh(a, a) == [] && IsPartOf(Fresh(a, a), [])
  {}

  lemma FutureOfNothing(a: Rx)
    ensures Future(a, []) == []
  {}

  /** Over a whole run from power-up: the published packets are a part of what the
      stream carries, and all of it when no frame was lost for lack of room. */
  lemma ReplayIsCarried(t: seq<Event>)
    ensures var r := Replay(t);
            && IsPartOf(r.published, Carried(Symbols(t), CAPACITY))
            && |Carried(Symbols(t), CAPACITY)| <= |r.published| + r.lost
            && (r.lost == 0 ==> r.published == Carried(Symbols(t), CAPACITY))
  {
    PublishedIsCarried(INITIAL, t);
    ExpectedIdle(false, [], Symbols(t), CAPACITY);
    PartOfLength(Replay(t).published, Carried(Symbols(t), CAPACITY));
    assert Fresh(INITIAL, Replay(t)) == Replay(t).published;
  }

  // ------------------------------------------------------------------
  // When nothing is lost
  // ------------------------------------------------------------------

  /** A frame is lost for lack of room exactly by the flag that closes a good one while
      six packets are queued, or by a byte for which the 63 places are taken up
      while packets are queued. */
  lemma LostIff(a: Rx, e: Event)
    requires Valid(a)
    ensures var r := Step(a, e);
            && (r.lost == a.lost || r.lost == a.lost + 1)
            && (r.lost == a.lost + 1 <==>
                  && e.Byte? && a.started
                  && (|| (e.data == 0x7e && a.cur != [] && Checks(a.cur) && |Queue(a)| >= 6)
                      || (e.data != 0x7d && e.data != 0x7e && e.data != 0x7f
                          && Total(Queue(a)) + |a.cur| >= 63 && |a.cur| < 63)))
  {
    hide Checks, Total, Queue;
  }

  lemma TotalOfRest(a: Rx)
    requires Valid(a) && a.popped < |a.published|
    ensures Total(Queue(a)) == |a.published[a.popped]| - a.readCt + Total(a.published[a.popped + 1..])
  {
    assert Queue(a)[1..] == a.published[a.popped + 1..];
  }

  /** The consumer only ever makes room, and leaves the decoder alone. */
  lemma ConsumerMakesRoom(a: Rx, e: Event)
    requires Valid(a) && (e.Take? || e.Next?)
    ensures var r := Step(a, e);
            && Total(Queue(r)) <= Total(Queue(a)) && |Queue(r)| <= |Queue(a)|
            && r.(popped := a.popped, readCt := a.readCt) == a
  {
    hide Queue, Total, OnByte;
    if e.Take? {
      TakeMakesRoom(a, e.n);
    } else {
      NextMakesRoom(a);
    }
  }

  lemma TakeMakesRoom(a: Rx, n: nat)
    requires Valid(a)
    ensures var r := OnTake(a, n);
            Valid(r) && Total(Queue(r)) <= Total(Queue(a)) && |Queue(r)| <= |Queue(a)|
  {
    hide Queue, Total;
    if a.popped < |a.published| {
      TotalOfRest(a);
      TotalOfRest(OnTake(a, n));
    }
  }

  lemma NextMakesRoom(a: Rx)
    requires Valid(a)
    ensures var r := OnNext(a);
            Valid(r) && Total(Queue(r)) <= Total(Queue(a)) && |Queue(r)| <= |Queue(a)|
  {
    hide Total;
    if a.popped < |a.published| {
      TotalOfRest(a);
      var r, rest := OnNext(a), a.published[a.popped + 1..];
      assert Queue(r) == rest by {
        if r.popped < |r.published| {
          assert rest == [rest[0]] + rest[1..];
        }
      }
    }
  }

  /** The body of a frame for which there is room is stored whole, whatever the
      consumer does meanwhile. */
  lemma {:induction false} BodyIsStored(a: Rx, t: seq<Event>)
    requires Valid(a) && a.started
    requires FLAG !in Symbols(t) && RESET !in Symbols(t)
    requires Total(Queue(a)) + |a.cur| + |Unstuff(a.escaped, Symbols(t))| <= CAPACITY
    ensures var r := Run(a, t);
            && r.cur == a.cur + Unstuff(a.escaped, Symbols(t)) && r.started
            && r.published == a.published && r.lost == a.lost && |Queue(r)| <= |Queue(a)|
    decreases |t|
  {
    hide Total, Queue, Valid, OnTake, OnNext, OnFlag;
    if |t| == 0 {
      assert a.cur + Unstuff(a.escaped, []) == a.cur;
    } else {
      var e, rest := t[0], Symbols(t[1..]);
      match e {
        case Byte(b) =>
          assert Symbols(t)[0] == b && Symbols(t)[1..] == rest;
          StepByte(a, b);
          StoreOne(a, b, rest);
        case LineError => assert false;
        case _ =>
          ConsumerMakesRoom(a, e);
          assert Symbols(t) == rest;
      }
      BodyIsStored(Step(a, e), t[1..]);
    }
  }

  lemma StoreOne(a: Rx, b: byte, rest: seq<byte>)
    requires Valid(a) && a.started && b != FLAG && b != RESET
    requires Total(Queue(a)) + |a.cur| + |Unstuff(a.escaped, [b] + rest)| <= CAPACITY
    ensures var r := OnByte(a, b);
            && r.started && r.published == a.published && r.lost == a.lost && Queue(r) == Queue(a)
            && a.cur + Unstuff(a.escaped, [b] + rest) == r.cur + Unstuff(r.escaped, rest)
  {
    hide Unstuff, Total, Queue, Masked;
    SameQueue(a, OnByte(a, b));
    if b == ESC {
      UnstuffEscape(a.escaped, rest);
    } else {
      UnstuffData(a.escaped, b, rest);
      var d := if a.escaped then Masked(b) else b;
      assert |[d] + Unstuff(false, rest)| >= 1;
      assert a.cur + ([d] + Unstuff(false, rest)) == (a.cur + [d]) + Unstuff(false, rest);
    }
  }

  lemma SameQueue(a: Rx, b: Rx)
    requires Valid(a) && Valid(b)
    ensures a.published == b.published && a.popped == b.popped && a.readCt == b.readCt ==> Queue(a) == Queue(b)
  {}

  /** There is a free slot, and room for a payload and its check bytes. */
  predicate HasRoomFor(a: Rx, payload: seq<byte>)
    requires Valid(a)
  {
    |Queue(a)| < SLOTS && Total(Queue(a)) + |payload| + 2 <= CAPACITY
  }

  /** A frame that finds room when it is opened is published, whatever the consumer
      does meanwhile. */
  lemma FramePublishes(a: Rx, payload: seq<byte>, body: seq<Event>)
    requires Valid(a) && a.started && !a.escaped && a.cur == []
    requires Symbols(body) == Stuff(Stored(payload)) && HasRoomFor(a, payload)
    ensures var r := Run(a, body + [Byte(FLAG)]);
            && r.published == a.published + [payload] && r.lost == a.lost
            && r.started && !r.escaped && r.cur == []
  {
    StuffTransparent(Stored(payload));
    assert HasRoomFor(a, payload);
    hide Total, Queue, Run, Checks, Step;
    BodyIsStored(a, body);
    var r := Run(a, body);
    assert [] + Stored(payload) == Stored(payload);
    RunSnoc(a, body, Byte(FLAG));
    StepByte(r, FLAG);
    CheckBytesCheck(payload);
    assert Trim(Stored(payload)) == payload;
  }

  lemma RunSnoc(a: Rx, t: seq<Event>, e: Event)
    requires Valid(a)
    ensures Run(a, t + [e]) == Step(Run(a, t), e)
  {
    RunAppend(a, t, [e]);
    assert [e][1..] == [];
    assert Run(Run(a, t), [e]) == Run(Step(Run(a, t), e), []);
  }

  /** Self-synchronisation. After any history, a flag followed by the stuffed
      payload and check bytes and by another flag publishes exactly that payload
      as the newest packet, if after the first flag there was a free slot and room
      for the stored bytes. The consumer may be at work all along. */
  lemma SelfSynchronises(history: seq<Event>, payload: seq<byte>, body: seq<Event>)
    requires Symbols(body) == Stuff(Stored(payload))
    requires HasRoomFor(Replay(history + [Byte(FLAG)]), payload)
    ensures Replay(history + [Byte(FLAG)] + body + [Byte(FLAG)]).published
         == Replay(history + [Byte(FLAG)]).published + [payload]
  {
    var open := history + [Byte(FLAG)];
    hide Run, HasRoomFor;
    OpenedByFlag(history);
    FramePublishes(Replay(open), payload, body);
    RunAppend(INITIAL, open, body + [Byte(FLAG)]);
    assert open + body + [Byte(FLAG)] == open + (body + [Byte(FLAG)]);
  }

  // ------------------------------------------------------------------
  // Whole runs of frames
  // ------------------------------------------------------------------

  /** One frame with flags of its own, as it arrives: what the consumer does before
      the opening flag, and what happens from there to the closing one. */
  datatype Arrival = Arrival(gap: seq<Event>, body: seq<Event>)

  function Arrives(x: Arrival): seq<Event> {
    x.gap + [Byte(FLAG)] + (x.body + [Byte(FLAG)])
  }

  function Arrive(xs: seq<Arrival>): seq<Event>
    decreases |xs|
  {
    if |xs| == 0 then [] else Arrives(xs[0]) + Arrive(xs[1..])
  }

  /** These are the frames of those payloads. */
  predicate FramesOf(xs: seq<Arrival>, payloads: seq<seq<byte>>) {
    && |xs| == |payloads|
    && forall i :: 0 <= i < |xs| ==> Symbols(xs[i].gap) == [] && Symbols(xs[i].body) == Stuff(Stored(payloads[i]))
  }

  /** Every opening flag finds a free slot and room for what follows it. */
  predicate Roomy(a: Rx, xs: seq<Arrival>, payloads: seq<seq<byte>>)
    requires Valid(a) && |xs| == |payloads|
    decreases |xs|
  {
    |xs| == 0
    || (HasRoomFor(Run(a, xs[0].gap + [Byte(FLAG)]), payloads[0])
        && Roomy(Run(a, Arrives(xs[0])), xs[1..], payloads[1..]))
  }

  /** Then all payloads are published, in order, and nothing is lost. */
  lemma {:induction false} AllPublished(a: Rx, xs: seq<Arrival>, payloads: seq<seq<byte>>)
    requires Valid(a) && a.cur == [] && FramesOf(xs, payloads) && Roomy(a, xs, payloads)
    ensures var r := Run(a, Arrive(xs));
            r.published == a.published + payloads && r.lost == a.lost
    decreases |xs|
  {
    hide Run, HasRoomFor, Symbols, Step, Valid, Arrives, FramesOf;
    if |xs| == 0 {
      RunNothing(a);
      Nothing(xs, payloads);
    } else {
      FirstFrame(xs, payloads);
      OneArrives(a, xs[0], payloads[0]);
      var b := Run(a, Arrives(xs[0]));
      AllPublished(b, xs[1..], payloads[1..]);
      RunAppend(a, Arrives(xs[0]), Arrive(xs[1..]));
      Regroup(a.published, payloads);
    }
  }

  lemma Nothing(xs: seq<Arrival>, payloads: seq<seq<byte>>)
    requires FramesOf(xs, payloads) && |xs| == 0
    ensures payloads == []
  {}

  lemma FirstFrame(xs: seq<Arrival>, payloads: seq<seq<byte>>)
    requires FramesOf(xs, payloads) && |xs| != 0
    ensures |payloads| == |xs| && FramesOf(xs[1..], payloads[1..])
    ensures Symbols(xs[0].gap) == [] && Symbols(xs[0].body) == Stuff(Stored(payloads[0]))
  {
    hide Symbols, Stuff, Stored;
  }

  lemma Regroup<T>(a: seq<T>, q: seq<T>)
    requires q != []
    ensures (a + [q[0]]) + q[1..] == a + q
  {}

  lemma RunNothing(a: Rx)
    requires Valid(a)
    ensures Run(a, []) == a
  {}

  lemma OneArrives(a: Rx, x: Arrival, payload: seq<byte>)
    requires Valid(a) && a.cur == [] && Symbols(x.gap) == [] && Symbols(x.body) == Stuff(Stored(payload))
    requires HasRoomFor(Run(a, x.gap + [Byte(FLAG)]), payload)
    ensures var r := Run(a, Arrives(x));
            r.published == a.published + [payload] && r.lost == a.lost && r.cur == []
  {
    var b := Run(a, x.gap);
    GapKeeps(a, x.gap);
    RunSnoc(a, x.gap, Byte(FLAG));
    StepByte(b, FLAG);
    hide Run, HasRoomFor, Symbols, Step;
    FramePublishes(OnFlag(b), payload, x.body);
    RunAppend(a, x.gap + [Byte(FLAG)], x.body + [Byte(FLAG)]);
  }

  /** The consumer alone leaves the decoder as it is. */
  lemma {:induction false} GapKeeps(a: Rx, t: seq<Event>)
    requires Valid(a) && Symbols(t) == []
    ensures var r := Run(a, t); r.(popped := a.popped, readCt := a.readCt) == a
    decreases |t|
  {
    hide Queue, Total, Valid;
    if |t| != 0 {
      assert t[0].Take? || t[0].Next?;
      ConsumerMakesRoom(a, t[0]);
      GapKeeps(Step(a, t[0]), t[1..]);
    }
  }

  lemma OpenedByFlag(history: seq<Event>)
    ensures var a := Replay(history + [Byte(FLAG)]); a.started && !a.escaped && a.cur == []
  {
    ReplaySnoc(history, Byte(FLAG));
    StepByte(Replay(history), FLAG);
  }

  /** Nothing is lost at a byte that finds the queue drained. */
  lemma DrainedLosesNothing(a: Rx, e: Event)
    requires Valid(a) && Queue(a) == []
    ensures Step(a, e).lost == a.lost
  {}

  /** In the run from `a` over `t` every symbol finds the queue drained. */
  predicate Drained(a: Rx, t: seq<Event>)
    requires Valid(a)
    decreases |t|
  {
    |t| == 0 || ((t[0].Byte? ==> Queue(a) == []) && Drained(Step(a, t[0]), t[1..]))
  }

  lemma {:induction false} DrainedRun(a: Rx, t: seq<Event>)
    requires Valid(a) && Drained(a, t)
    ensures Run(a, t).lost == a.lost
    decreases |t|
  {
    hide Queue, Valid;
    if |t| != 0 {
      if t[0].Byte? {
        DrainedLosesNothing(a, t[0]);
      }
      DrainedRun(Step(a, t[0]), t[1..]);
    }
  }

  lemma {:induction false} DrainedSplit(a: Rx, t: seq<Event>, u: seq<Event>)
    requires Valid(a) && Drained(a, t + u)
    ensures Drained(Run(a, t), u)
    decreases |t|
  {
    hide Queue, Valid, Step;
    if |t| == 0 {
      assert t + u == u;
    } else {
      assert (t + u)[1..] == t[1..] + u;
      DrainedSplit(Step(a, t[0]), t[1..], u);
    }
  }

  /** A drained queue has room for every payload of up to 61 bytes. */
  lemma {:induction false} DrainedIsRoomy(a: Rx, xs: seq<Arrival>, payloads: seq<seq<byte>>)
    requires Valid(a) && a.cur == [] && FramesOf(xs, payloads) && Drained(a, Arrive(xs))
    requires forall i :: 0 <= i < |payloads| ==> |payloads[i]| + 2 <= CAPACITY
    ensures Roomy(a, xs, payloads)
    decreases |xs|
  {
    hide Run, Symbols, Step, Valid, Drained, HasRoomFor;
    if |xs| != 0 {
      var x, rest := xs[0], Arrive(xs[1..]);
      assert Arrive(xs) == x.gap + ([Byte(FLAG)] + (x.body + [Byte(FLAG)] + rest));
      DrainedSplit(a, x.gap, [Byte(FLAG)] + (x.body + [Byte(FLAG)] + rest));
      GapKeeps(a, x.gap);
      RunSnoc(a, x.gap, Byte(FLAG));
      DrainedAtFlag(Run(a, x.gap), x.body + [Byte(FLAG)] + rest, payloads[0]);
      OneArrives(a, x, payloads[0]);
      DrainedSplit(a, Arrives(x), rest);
      DrainedIsRoomy(Run(a, Arrives(x)), xs[1..], payloads[1..]);
    }
  }

  lemma DrainedAtFlag(a: Rx, u: seq<Event>, payload: seq<byte>)
    requires Valid(a) && a.cur == [] && Drained(a, [Byte(FLAG)] + u) && |payload| + 2 <= CAPACITY
    ensures HasRoomFor(Step(a, Byte(FLAG)), payload)
  {
    assert Queue(a) == [] by {
      assert ([Byte(FLAG)] + u)[0] == Byte(FLAG);
    }
  }

  // ------------------------------------------------------------------
  // The consumer
  // ------------------------------------------------------------------

  /** The first `n` bytes of `p`, or all of it. */
  function Prefix(p: seq<byte>, n: nat): seq<byte> {
    p[..if n <= |p| then n else |p|]
  }

  /** The bytes an event hands to the consumer. */
  function Got(a: Rx, e: Event): seq<byte>
    requires Valid(a)
  {
    if e.Take? && Queue(a) != [] then Prefix(Queue(a)[0], e.n) else []
  }

  function GotAll(a: Rx, t: seq<Event>): seq<byte>
    requires Valid(a)
    decreases |t|
  {
    if |t| == 0 then [] else Got(a, t[0]) + GotAll(Step(a, t[0]), t[1..])
  }

  function Asked(t: seq<Event>): nat
    decreases |t|
  {
    if |t| == 0 then 0 else Amount(t[0]) + Asked(t[1..])
  }

  function Amount(e: Event): nat {
    if e.Take? then e.n else 0
  }

  lemma QueueParts(a: Rx)
    requires Valid(a)
    ensures Queue(a) == [] <==> a.popped == |a.published|
    ensures Queue(a) != [] ==>
              Queue(a)[0] == a.published[a.popped][a.readCt..] && Queue(a)[1..] == a.published[a.popped + 1..]
  {}

  lemma InterruptKeepsPlace(a: Rx, e: Event)
    requires Valid(a) && (e.Byte? || e.LineError?)
    ensures Step(a, e).popped == a.popped && Step(a, e).readCt == a.readCt
  {}

  lemma TakeStep(a: Rx, e: Event)
    requires Valid(a) && Queue(a) != [] && !e.Next?
    ensures var r := Step(a, e);
            && Queue(r) != [] && Queue(a)[0] == Got(a, e) + Queue(r)[0]
            && Queue(a)[1..] <= Queue(r)[1..]
            && Got(a, e) == Prefix(Queue(a)[0], Amount(e))
  {
    hide Queue, OnByte;
    var r := Step(a, e);
    QueueParts(a);
    QueueParts(r);
    if e.Take? {
      assert r == OnTake(a, e.n);
    } else {
      InterruptKeepsPlace(a, e);
    }
  }

  lemma PrefixSplit(p: seq<byte>, q: seq<byte>, n: nat, m: nat)
    requires p == Prefix(p, n) + q
    ensures Prefix(p, n) + Prefix(q, m) == Prefix(p, n + m)
  {
    assert p == Prefix(p, n) + p[|Prefix(p, n)|..];
  }

  /** Reading a packet in any number of pieces, with the interrupt at work between
      them, yields the bytes that one large read would have. What is left of the
      packet, and the packets behind it, stay as they were. */
  lemma {:induction false} ChunksJoin(a: Rx, t: seq<Event>)
    requires Valid(a) && Queue(a) != []
    requires forall e :: e in t ==> !e.Next?
    ensures var r := Run(a, t);
            && Queue(r) != []
            && GotAll(a, t) == Prefix(Queue(a)[0], Asked(t))
            && Queue(a)[0] == GotAll(a, t) + Queue(r)[0]
            && Queue(a)[1..] <= Queue(r)[1..]
    decreases |t|
  {
    hide Queue, Valid, Step, Prefix, Got;
    if |t| == 0 {
      PrefixNothing(Queue(a)[0]);
      assert Queue(a)[0] == [] + Queue(a)[0];
    } else {
      var b := Step(a, t[0]);
      TakeStep(a, t[0]);
      assert forall e :: e in t[1..] ==> e in t;
      ChunksJoin(b, t[1..]);
      var p, q := Queue(a)[0], Queue(b)[0];
      PrefixSplit(p, q, Amount(t[0]), Asked(t[1..]));
      assert Got(a, t[0]) + (GotAll(b, t[1..]) + Queue(Run(b, t[1..]))[0]) == GotAll(a, t) + Queue(Run(a, t))[0];
    }
  }

  lemma PrefixNothing(p: seq<byte>)
    ensures Prefix(p, 0) == []
  {}

  /** Reading leaves the rest of the packet, and nothing else changes. */
  lemma TakeReads(a: Rx, n: nat)
    requires Valid(a) && Queue(a) != [] && n <= |Queue(a)[0]|
    ensures var r := Step(a, Take(n));
            && Queue(r) == [Queue(a)[0][n..]] + Queue(a)[1..]
            && r.(readCt := a.readCt) == a
  {
    hide Queue;
    var r := Step(a, Take(n));
    QueueParts(a);
    assert r == OnTake(a, n) && r.readCt == a.readCt + n;
    QueueParts(r);
    assert Queue(r) == [Queue(r)[0]] + Queue(r)[1..];
  }

  /** Leaving a packet brings up the next one, unread and whole. */
  lemma NextBringsUp(a: Rx)
    requires Valid(a) && Queue(a) != []
    ensures Queue(Step(a, Next)) == Queue(a)[1..]
  {
    hide Queue;
    var r := Step(a, Next);
    assert r == OnNext(a);
    QueueParts(a);
    QueueParts(r);
    if Queue(r) != [] {
      assert Queue(r) == [Queue(r)[0]] + Queue(r)[1..];
      assert Queue(a)[1..] == [a.published[r.popped]] + a.published[r.popped + 1..];
    }
  }

  /** The packets as the consumer has them when it advances: what it read of each. */
  function Collected(a: Rx, t: seq<Event>): seq<seq<byte>>
    requires Valid(a)
    decreases |t|
  {
    if |t| == 0 then []
    else (if t[0].Next? && Queue(a) != [] then [a.published[a.popped][..a.readCt]] else [])
         + Collected(Step(a, t[0]), t[1..])
  }

  /** The consumer never advances before it has read the whole packet. */
  predicate ReadsWhole(a: Rx, t: seq<Event>)
    requires Valid(a)
    decreases |t|
  {
    |t| == 0 || ((t[0].Next? && Queue(a) != [] ==> Queue(a)[0] == []) && ReadsWhole(Step(a, t[0]), t[1..]))
  }

  /** A consumer that reads packets whole collects the published ones, in order. */
  lemma {:induction false} CollectsPublished(a: Rx, t: seq<Event>)
    requires Valid(a) && ReadsWhole(a, t)
    ensures var r := Run(a, t); Collected(a, t) == r.published[a.popped..r.popped]
    decreases |t|
  {
    hide Queue, Step;
    if |t| != 0 {
      var b := Step(a, t[0]);
      var r := Run(a, t);
      CollectsPublished(b, t[1..]);
      CollectOne(a, t[0]);
      if t[0].Next? && Queue(a) != [] {
        QueueParts(a);
        assert r.published[a.popped..r.popped] == [r.published[a.popped]] + r.published[b.popped..r.popped];
      }
    }
  }

  lemma CollectOne(a: Rx, e: Event)
    requires Valid(a)
    ensures var b := Step(a, e);
            && (e.Next? && Queue(a) != [] ==> b.popped == a.popped + 1)
            && (!(e.Next? && Queue(a) != []) ==> b.popped == a.popped)
    ensures Queue(a) != [] && Queue(a)[0] == [] ==> a.published[a.popped][..a.readCt] == a.published[a.popped]
  {
    hide Queue, OnByte;
    QueueParts(a);
    if e.Byte? {
      InterruptKeepsPlace(a, e);
    }
  }
}
