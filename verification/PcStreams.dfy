/** frame_recv on every stream there is. A flag does not make it forget everything:
    an escape before it stays in force, and the check is not restarted when the
    buffer is empty. So on streams with aborts or with escapes directly before
    flags its results need not be what the stream carries. */
module PcStreams {
  import opened Crc
  import opened Wire
  import opened PcCodec

  // ------------------------------------------------------------------
  // From one flag to the next
  // ------------------------------------------------------------------

  /** The bytes between two flags without the aborts. */
  function Kept(seg: seq<byte>): seq<byte>
    decreases |seg|
  {
    if |seg| == 0 then [] else (if seg[0] == RESET then [] else [seg[0]]) + Kept(seg[1..])
  }

  /** How full the buffer is after a byte, and after the bytes between two flags. */
  function HeldAfter(n: nat, b: byte): nat {
    if b == RESET then 0 else if b == ESC then n else n + 1
  }

  function Held(n: nat, seg: seq<byte>): nat
    decreases |seg|
  {
    if |seg| == 0 then n else Held(HeldAfter(n, seg[0]), seg[1..])
  }

  /** Between two aborts there are too many bytes for the buffer. */
  predicate Overflows(n: nat, seg: seq<byte>, cap: nat)
    decreases |seg|
  {
    n > cap || (|seg| != 0 && Overflows(HeldAfter(n, seg[0]), seg[1..], cap))
  }

  function Last(u: seq<byte>, n: nat): seq<byte> {
    if n <= |u| then u[|u| - n..] else u
  }

  /** The variables after the bytes between two flags: the buffer holds those since
      the last abort, the check has run over all of them. */
  function AfterSegment(seg: seq<byte>, st: Recv): Recv {
    var u := Unstuff(st.escaped, Kept(seg));
    Recv(true, EscapedAfter(st.escaped, Kept(seg)), Last(st.got + u, Held(|st.got|, seg)), Fold(st.crc, u))
  }

  function Stepped(b: byte, st: Recv): Recv {
    if b == RESET then st.(got := [])
    else if b == ESC then st.(escaped := true)
    else
      var d := if st.escaped then Masked(b) else b;
      Recv(true, false, st.got + [d], Update(st.crc, d))
  }

  lemma {:induction false} HeldBound(n: nat, escaped: bool, seg: seq<byte>)
    ensures Held(n, seg) <= n + |Unstuff(escaped, Kept(seg))|
    decreases |seg|
  {
    hide Masked;
    if |seg| != 0 {
      var b, t := seg[0], Kept(seg[1..]);
      HeldBound(HeldAfter(n, b), if b == RESET then escaped else b == ESC, seg[1..]);
      if b == RESET {
        assert Kept(seg) == t;
      } else if b == ESC {
        UnstuffEscape(escaped, t);
      } else {
        UnstuffData(escaped, b, t);
      }
    }
  }

  lemma AfterCons(b: byte, t: seq<byte>, st: Recv)
    requires st.started && b != FLAG
    ensures AfterSegment([b] + t, st) == AfterSegment(t, Stepped(b, st))
  {
    hide Update, Masked, Unstuff, Kept, Held, Fold, HeldAfter, EscapedAfter, Last;
    KeptCons(b, t);
    HeldCons(|st.got|, b, t);
    if b == RESET {
      AfterAbort(t, st);
    } else if b == ESC {
      UnstuffEscape(st.escaped, Kept(t));
      EscapedCons(st.escaped, b, Kept(t));
      HeldStep(|st.got|, b);
    } else {
      AfterData(b, t, st);
    }
  }

  lemma AfterAbort(t: seq<byte>, st: Recv)
    ensures var u := Unstuff(st.escaped, Kept(t));
            Last(st.got + u, Held(HeldAfter(|st.got|, RESET), t)) == Last([] + u, Held(0, t))
  {
    hide Unstuff, Kept, Held;
    HeldBound(0, st.escaped, t);
  }

  lemma AfterData(b: byte, t: seq<byte>, st: Recv)
    requires st.started && b != FLAG && b != RESET && b != ESC
    ensures AfterSegment([b] + t, st) == AfterSegment(t, Stepped(b, st))
  {
    hide Update, Masked, Unstuff, Kept, Held, EscapedAfter, Last;
    KeptCons(b, t);
    HeldCons(|st.got|, b, t);
    var d := if st.escaped then Masked(b) else b;
    UnstuffData(st.escaped, b, Kept(t));
    EscapedCons(st.escaped, b, Kept(t));
    var u := Unstuff(false, Kept(t));
    assert ([d] + u)[1..] == u;
    assert st.got + ([d] + u) == (st.got + [d]) + u;
  }

  lemma KeptCons(b: byte, t: seq<byte>)
    ensures Kept([b] + t) == if b == RESET then Kept(t) else [b] + Kept(t)
  {
    assert ([b] + t)[1..] == t;
  }

  lemma HeldCons(n: nat, b: byte, t: seq<byte>)
    ensures Held(n, [b] + t) == Held(HeldAfter(n, b), t)
  {
    assert ([b] + t)[1..] == t;
  }

  lemma HeldStep(n: nat, b: byte)
    ensures HeldAfter(n, b) == if b == RESET then 0 else if b == ESC then n else n + 1
  {}

  lemma ReceiveOne(b: byte, rest: seq<byte>, st: Recv, cap: nat)
    requires st.started && b != FLAG && HeldAfter(|st.got|, b) <= cap
    ensures Receive([b] + rest, st, cap) == Receive(rest, Stepped(b, st), cap)
    ensures Stepped(b, st).started && |Stepped(b, st).got| == HeldAfter(|st.got|, b)
  {
    hide Update, Masked;
    assert ([b] + rest)[1..] == rest;
  }

  lemma {:induction false} ThroughSegment(seg: seq<byte>, rest: seq<byte>, st: Recv, cap: nat)
    requires st.started && FLAG !in seg && !Overflows(|st.got|, seg, cap)
    ensures Receive(seg + rest, st, cap) == Receive(rest, AfterSegment(seg, st), cap)
    decreases |seg|
  {
    hide Receive, Stepped, HeldAfter, Fold, Unstuff, Kept;
    if |seg| == 0 {
      AfterNothing(st);
      assert seg == [] && seg + rest == rest;
    } else {
      var b, t := seg[0], seg[1..];
      assert seg == [b] + t && seg + rest == [b] + (t + rest);
      assert HeldAfter(|st.got|, b) <= cap by { assert !Overflows(HeldAfter(|st.got|, b), t, cap); }
      ReceiveOne(b, t + rest, st, cap);
      AfterCons(b, t, st);
      ThroughSegment(t, rest, Stepped(b, st), cap);
    }
  }

  lemma AfterNothing(st: Recv)
    requires st.started
    ensures AfterSegment([], st) == st
  {
    assert st.got + [] == st.got;
  }

  /** A call that starts between two flags waits for the next. */
  lemma {:induction false} WaitsForFlag(seg: seq<byte>, rest: seq<byte>, cap: nat)
    requires FLAG !in seg
    ensures ReceiveAll(seg + rest, START, cap) == ReceiveAll(rest, START, cap)
    decreases |seg|
  {
    if |seg| == 0 {
      assert seg + rest == rest;
    } else {
      hide ReceiveAll;
      assert (seg + rest)[1..] == seg[1..] + rest;
      assert Receive(seg + rest, START, cap) == Receive(seg[1..] + rest, START, cap);
      SameReceive(seg + rest, START, seg[1..] + rest, START, cap);
      WaitsForFlag(seg[1..], rest, cap);
    }
  }

  lemma {:induction false} OverflowSkips(seg: seq<byte>, rest: seq<byte>, st: Recv, cap: nat)
    requires st.started && FLAG !in seg && |st.got| <= cap && Overflows(|st.got|, seg, cap)
    ensures ReceiveAll(seg + rest, st, cap) == ReceiveAll(rest, START, cap)
    ensures Code(Receive(seg + rest, st, cap)) == -28
    decreases |seg|
  {
    hide Stepped;
    var b, t := seg[0], seg[1..];
    assert seg == [b] + t && seg + rest == [b] + (t + rest);
    if HeldAfter(|st.got|, b) <= cap {
      ReceiveOne(b, t + rest, st, cap);
      hide ReceiveAll, Receive;
      SameReceive(seg + rest, st, t + rest, Stepped(b, st), cap);
      OverflowSkips(t, rest, Stepped(b, st), cap);
    } else {
      assert (seg + rest)[1..] == t + rest;
      assert Receive(seg + rest, st, cap) == NoSpace(st.got, t + rest);
      WaitsForFlag(t, rest, cap);
    }
  }

  // ------------------------------------------------------------------
  // What is returned
  // ------------------------------------------------------------------

  /** What a call remembers behind a flag: an escape, and the bytes over which the
      check has run since it was restarted. */
  datatype Memory = Memory(escaped: bool, checked: seq<byte>)

  const NOTHING := Memory(false, [])

  function After(m: Memory, seg: seq<byte>): Memory {
    Memory(EscapedAfter(m.escaped, Kept(seg)), m.checked + Unstuff(m.escaped, Kept(seg)))
  }

  /** The buffer at the closing flag. */
  function Buffer(m: Memory, seg: seq<byte>): seq<byte> {
    Last(Unstuff(m.escaped, Kept(seg)), Held(0, seg))
  }

  /** The call returns it: it is not empty, and the check of everything since the
      restart is right. */
  predicate Returned(m: Memory, seg: seq<byte>, cap: nat) {
    !Overflows(0, seg, cap) && Held(0, seg) != 0 && Checks(After(m, seg).checked)
  }

  /** It returns a single byte, and the value -1 ends the reading. */
  predicate Stops(m: Memory, seg: seq<byte>, cap: nat) {
    Returned(m, seg, cap) && Held(0, seg) == 1
  }

  function Gives(m: Memory, seg: seq<byte>, cap: nat): seq<seq<byte>> {
    if Returned(m, seg, cap) && !Stops(m, seg, cap) then [Trim(Buffer(m, seg))] else []
  }

  function Leaves(m: Memory, seg: seq<byte>, cap: nat): Memory {
    if Overflows(0, seg, cap) || Returned(m, seg, cap) then NOTHING
    else if Held(0, seg) == 0 then After(m, seg)
    else Memory(After(m, seg).escaped, [])
  }

  function Taken(m: Memory, segments: seq<seq<byte>>, cap: nat): seq<seq<byte>>
    decreases |segments|
  {
    if |segments| == 0 then []
    else if Stops(m, segments[0], cap) then []
    else Gives(m, segments[0], cap) + Taken(Leaves(m, segments[0], cap), segments[1..], cap)
  }

  function Behind(m: Memory): Recv {
    Recv(true, m.escaped, [], Fold(INIT, m.checked))
  }

  lemma FreshFlag(rest: seq<byte>, cap: nat)
    ensures ReceiveAll([FLAG] + rest, START, cap) == ReceiveAll(rest, Behind(NOTHING), cap)
  {
    assert ([FLAG] + rest)[1..] == rest;
    FoldNothing();
    SameReceive([FLAG] + rest, START, rest, Behind(NOTHING), cap);
  }

  lemma AfterIs(m: Memory, seg: seq<byte>)
    ensures AfterSegment(seg, Behind(m))
         == Recv(true, After(m, seg).escaped, Buffer(m, seg), Fold(INIT, After(m, seg).checked))
    ensures |Buffer(m, seg)| == Held(0, seg)
  {
    hide Unstuff, Fold;
    var u := Unstuff(m.escaped, Kept(seg));
    assert [] + u == u;
    FoldAppend(INIT, m.checked, u);
    HeldBound(0, m.escaped, seg);
  }

  /** The flag that closes a segment. */
  lemma ClosingFlag(m: Memory, seg: seq<byte>, rest: seq<byte>, cap: nat)
    requires !Overflows(0, seg, cap)
    ensures var st := AfterSegment(seg, Behind(m));
            ReceiveAll([FLAG] + rest, st, cap)
              == if Stops(m, seg, cap) then []
                 else Gives(m, seg, cap) + ReceiveAll(rest, Behind(Leaves(m, seg, cap)), cap)
  {
    AfterIs(m, seg);
    FoldNothing();
    hide AfterSegment, After, Buffer, Held, Overflows, Fold;
    var st := AfterSegment(seg, Behind(m));
    var s := [FLAG] + rest;
    assert s[1..] == rest;
    if Returned(m, seg, cap) {
      assert Receive(s, st, cap) == Success(st.got, s);
      FreshFlag(rest, cap);
    } else {
      var st' := Behind(Leaves(m, seg, cap));
      assert Receive(s, st, cap) == Receive(rest, st', cap);
      SameReceive(s, st, rest, st', cap);
    }
  }

  lemma SegmentTaken(m: Memory, seg: seq<byte>, rest: seq<byte>, cap: nat)
    requires FLAG !in seg
    ensures ReceiveAll(seg + ([FLAG] + rest), Behind(m), cap)
         == if Stops(m, seg, cap) then []
            else Gives(m, seg, cap) + ReceiveAll(rest, Behind(Leaves(m, seg, cap)), cap)
  {
    hide Fold, ReceiveAll, Receive;
    if Overflows(0, seg, cap) {
      OverflowSkips(seg, [FLAG] + rest, Behind(m), cap);
      FreshFlag(rest, cap);
    } else {
      ThroughSegment(seg, [FLAG] + rest, Behind(m), cap);
      SameReceive(seg + ([FLAG] + rest), Behind(m), [FLAG] + rest, AfterSegment(seg, Behind(m)), cap);
      ClosingFlag(m, seg, rest, cap);
    }
  }

  lemma {:induction false} NoFlagNothing(s: seq<byte>, st: Recv, cap: nat)
    requires FLAG !in s
    ensures ReceiveAll(s, st, cap) == []
    decreases |s|, st.started
  {
    hide Update, Masked;
    if |s| != 0 {
      match OnByte(s[0], st, cap) {
        case Go(st') =>
          SameReceive(s, st, s[1..], st', cap);
          NoFlagNothing(s[1..], st', cap);
        case Full =>
          NoFlagNothing(s[1..], START, cap);
      }
    }
  }

  lemma {:induction false} TakenFrom(s: seq<byte>, m: Memory, cap: nat)
    ensures ReceiveAll(s, Behind(m), cap) == Taken(m, Segments(s), cap)
    decreases |s|
  {
    hide ReceiveAll, Gives, Leaves, Stops, Behind;
    var i := FlagAt(s);
    if i == |s| {
      assert s == s[..i];
      NoFlagNothing(s, Behind(m), cap);
    } else {
      assert s == s[..i] + ([FLAG] + s[i + 1..]);
      SegmentTaken(m, s[..i], s[i + 1..], cap);
      TakenFrom(s[i + 1..], Leaves(m, s[..i], cap), cap);
      assert ([s[..i]] + Segments(s[i + 1..]))[1..] == Segments(s[i + 1..]);
    }
  }

  /** What calling frame_recv until the end returns, for every stream. */
  lemma ReceivesTaken(s: seq<byte>, cap: nat)
    ensures var i := FlagAt(s);
            ReceiveAll(s, START, cap) == if i == |s| then [] else Taken(NOTHING, Segments(s[i + 1..]), cap)
  {
    hide ReceiveAll, Segments, Behind;
    var i := FlagAt(s);
    if i == |s| {
      assert s == s[..i];
      NoFlagNothing(s, START, cap);
    } else {
      assert s == s[..i] + ([FLAG] + s[i + 1..]);
      WaitsForFlag(s[..i], [FLAG] + s[i + 1..], cap);
      FreshFlag(s[i + 1..], cap);
      TakenFrom(s[i + 1..], NOTHING, cap);
    }
  }

  lemma TakenAfterFlag(s: seq<byte>, cap: nat)
    ensures ReceiveAll([FLAG] + s, START, cap) == Taken(NOTHING, Segments(s), cap)
    ensures Carried([FLAG] + s, cap) == Payloads(Segments(s), cap)
  {
    FreshFlag(s, cap);
    TakenFrom(s, NOTHING, cap);
    CarriedFromFlag(s, cap);
  }

  // ------------------------------------------------------------------
  // The value of one call
  // ------------------------------------------------------------------

  /** What a call returns, from behind a flag on: -28 at the first segment that
      overflows the buffer, if none was returned before it; the number of bytes
      without the check for the first that is returned; -1 if there is neither. */
  function CodeBehind(m: Memory, s: seq<byte>, cap: nat): int
    decreases |s|
  {
    var i := FlagAt(s);
    if Overflows(0, s[..i], cap) then -28
    else if i == |s| then -1
    else if Returned(m, s[..i], cap) then Held(0, s[..i]) - 2
    else CodeBehind(Leaves(m, s[..i], cap), s[i + 1..], cap)
  }

  function CodeOf(s: seq<byte>, cap: nat): int {
    var i := FlagAt(s);
    if i == |s| then -1 else CodeBehind(NOTHING, s[i + 1..], cap)
  }

  /** Some segment overflows the buffer, the last one need not be closed. */
  predicate SomeOverflow(s: seq<byte>, cap: nat)
    decreases |s|
  {
    var i := FlagAt(s);
    Overflows(0, s[..i], cap) || (i < |s| && SomeOverflow(s[i + 1..], cap))
  }

  lemma SegmentCode(m: Memory, seg: seq<byte>, rest: seq<byte>, cap: nat)
    requires FLAG !in seg
    ensures Code(Receive(seg + ([FLAG] + rest), Behind(m), cap))
         == if Overflows(0, seg, cap) then -28
            else if Returned(m, seg, cap) then Held(0, seg) - 2
            else Code(Receive(rest, Behind(Leaves(m, seg, cap)), cap))
  {
    if Overflows(0, seg, cap) {
      hide Receive, Fold, ReceiveAll;
      OverflowSkips(seg, [FLAG] + rest, Behind(m), cap);
    } else {
      AfterIs(m, seg);
      FoldNothing();
      hide AfterSegment, After, Buffer, Held, Overflows, Fold;
      ThroughSegment(seg, [FLAG] + rest, Behind(m), cap);
      assert ([FLAG] + rest)[1..] == rest;
    }
  }

  lemma OpenCode(m: Memory, seg: seq<byte>, cap: nat)
    requires FLAG !in seg
    ensures Code(Receive(seg, Behind(m), cap)) == if Overflows(0, seg, cap) then -28 else -1
  {
    assert seg + [] == seg;
    if Overflows(0, seg, cap) {
      OverflowSkips(seg, [], Behind(m), cap);
    } else {
      ThroughSegment(seg, [], Behind(m), cap);
    }
  }

  lemma {:induction false} CodeFrom(s: seq<byte>, m: Memory, cap: nat)
    ensures Code(Receive(s, Behind(m), cap)) == CodeBehind(m, s, cap)
    decreases |s|
  {
    hide Receive, Leaves, Returned, Behind, Overflows, Held;
    var i := FlagAt(s);
    if i == |s| {
      assert s == s[..i];
      OpenCode(m, s, cap);
    } else {
      assert s == s[..i] + ([FLAG] + s[i + 1..]);
      SegmentCode(m, s[..i], s[i + 1..], cap);
      CodeFrom(s[i + 1..], Leaves(m, s[..i], cap), cap);
    }
  }

  lemma {:induction false} CodeWaits(seg: seq<byte>, rest: seq<byte>, cap: nat)
    requires FLAG !in seg
    ensures Receive(seg + rest, START, cap) == Receive(rest, START, cap)
    decreases |seg|
  {
    if |seg| == 0 {
      assert seg + rest == rest;
    } else {
      assert (seg + rest)[1..] == seg[1..] + rest;
      CodeWaits(seg[1..], rest, cap);
    }
  }

  /** The value of a call of frame_recv, for every stream and buffer. */
  lemma CallReturns(s: seq<byte>, cap: nat)
    ensures Code(Receive(s, START, cap)) == CodeOf(s, cap)
  {
    var i := FlagAt(s);
    FoldNothing();
    if i == |s| {
      assert s == s[..i] && s + [] == s;
      CodeWaits(s, [], cap);
    } else {
      var rest := s[i + 1..];
      assert s == s[..i] + ([FLAG] + rest);
      CodeWaits(s[..i], [FLAG] + rest, cap);
      assert ([FLAG] + rest)[1..] == rest;
      assert Receive([FLAG] + rest, START, cap) == Receive(rest, Behind(NOTHING), cap);
      CodeFrom(rest, NOTHING, cap);
    }
  }

  /** A call returns -28 only if a segment overflows the buffer. */
  lemma {:induction false} NoSpaceOnly(m: Memory, s: seq<byte>, cap: nat)
    requires CodeBehind(m, s, cap) == -28
    ensures SomeOverflow(s, cap)
    decreases |s|
  {
    var i := FlagAt(s);
    if !Overflows(0, s[..i], cap) {
      NoSpaceOnly(Leaves(m, s[..i], cap), s[i + 1..], cap);
    }
  }

  // ------------------------------------------------------------------
  // When it is what the stream carries, at every flag
  // ------------------------------------------------------------------

  /** At the closing flag it makes no difference what is remembered, and whether there
      was an abort: there are too many bytes, or at most one is in the buffer; or
      behind an abort the check is wrong, and without one it is right exactly if it
      is for the bytes alone, unstuffed without what is remembered, and then these
      are the ones in the buffer, but for the check bytes. */
  predicate Agrees(m: Memory, seg: seq<byte>, cap: nat) {
    || Overflows(0, seg, cap) || Held(0, seg) <= 1
    || (if RESET in seg then !Checks(After(m, seg).checked)
        else
          var u, v := Unstuff(false, seg), Unstuff(m.escaped, seg);
          (Checks(u) <==> Checks(m.checked + v)) && (Checks(u) ==> Trim(u) == Trim(v)))
  }

  /** That is when a segment gives what it carries. */
  lemma AgreesIff(m: Memory, seg: seq<byte>, cap: nat)
    ensures Gives(m, seg, cap) == FromSegment(seg, cap) <==> Agrees(m, seg, cap)
  {
    if RESET !in seg {
      var u := Unstuff(false, seg);
      NothingAborted(0, false, seg, cap);
      SameLength(false, m.escaped, seg);
      if |u| == 1 {
        ChecksIff(u);
      }
      hide Unstuff, Checks, Overflows, Held, Kept;
      assert |Unstuff(m.escaped, seg)| == |u|;
    }
  }

  /** Every segment agrees, and none with a single byte in the buffer ends the reading
      before one that carries something. */
  predicate Faithful(m: Memory, segments: seq<seq<byte>>, cap: nat)
    decreases |segments|
  {
    |segments| == 0
    || (Agrees(m, segments[0], cap)
        && if Stops(m, segments[0], cap) then Payloads(segments[1..], cap) == []
           else Faithful(Leaves(m, segments[0], cap), segments[1..], cap))
  }

  function Joined(segments: seq<seq<byte>>): seq<byte>
    decreases |segments|
  {
    if |segments| == 0 then [] else segments[0] + [FLAG] + Joined(segments[1..])
  }

  lemma {:induction false} SegmentsOfJoined(segments: seq<seq<byte>>)
    requires forall seg :: seg in segments ==> FLAG !in seg
    ensures Segments(Joined(segments)) == segments
    decreases |segments|
  {
    if |segments| == 0 {
      assert FlagAt([]) == 0;
    } else {
      SegmentsOfJoined(segments[1..]);
      SegmentsCons(segments[0], Joined(segments[1..]));
    }
  }

  predicate SameSoFar(m: Memory, segments: seq<seq<byte>>, cap: nat, k: nat)
    requires k <= |segments|
  {
    Taken(m, segments[..k], cap) == Payloads(segments[..k], cap)
  }

  lemma {:induction false} PayloadsPrefix(segments: seq<seq<byte>>, k: nat, cap: nat)
    requires k <= |segments|
    ensures Payloads(segments[..k], cap) <= Payloads(segments, cap)
    decreases k
  {
    hide FromSegment;
    if k != 0 {
      assert segments[..k][1..] == segments[1..][..k - 1];
      PayloadsPrefix(segments[1..], k - 1, cap);
    }
  }

  /** The first segment decides together with the rest. */
  lemma SameSoFarCons(m: Memory, segments: seq<seq<byte>>, cap: nat, k: nat)
    requires 1 <= k <= |segments|
    requires Gives(m, segments[0], cap) == FromSegment(segments[0], cap)
    ensures SameSoFar(m, segments, cap, k)
       <==> if Stops(m, segments[0], cap) then Payloads(segments[1..][..k - 1], cap) == []
            else SameSoFar(Leaves(m, segments[0], cap), segments[1..], cap, k - 1)
  {
    assert segments[..k][1..] == segments[1..][..k - 1];
    assert Stops(m, segments[0], cap) ==> Gives(m, segments[0], cap) == [];
    hide Gives, FromSegment, Stops, Leaves;
    var g := FromSegment(segments[0], cap);
    var x, y := Taken(Leaves(m, segments[0], cap), segments[1..][..k - 1], cap), Payloads(segments[1..][..k - 1], cap);
    assert g + x == g + y <==> x == y by {
      assert (g + x)[|g|..] == x && (g + y)[|g|..] == y;
    }
    assert [] + y == y;
  }

  lemma SameSoFarOne(m: Memory, segments: seq<seq<byte>>, cap: nat)
    requires segments != []
    ensures SameSoFar(m, segments, cap, 1) <==> Gives(m, segments[0], cap) == FromSegment(segments[0], cap)
  {
    assert segments[..1][1..] == [];
    assert Stops(m, segments[0], cap) ==> Gives(m, segments[0], cap) == [];
    hide Gives, FromSegment, Stops, Leaves;
    var g, f := Gives(m, segments[0], cap), FromSegment(segments[0], cap);
    assert Taken(Leaves(m, segments[0], cap), [], cap) == [] && Payloads([], cap) == [];
    assert g + [] == g && f + [] == f;
  }

  lemma {:induction false} FaithfulSoFar(m: Memory, segments: seq<seq<byte>>, cap: nat, k: nat)
    requires Faithful(m, segments, cap) && k <= |segments|
    ensures SameSoFar(m, segments, cap, k)
    decreases |segments|
  {
    hide Gives, FromSegment, Stops, Leaves, Agrees;
    if k == 0 {
      assert segments[..0] == [];
    } else {
      AgreesIff(m, segments[0], cap);
      SameSoFarCons(m, segments, cap, k);
      if Stops(m, segments[0], cap) {
        PayloadsPrefix(segments[1..], k - 1, cap);
      } else {
        FaithfulSoFar(Leaves(m, segments[0], cap), segments[1..], cap, k - 1);
      }
    }
  }

  lemma {:induction false} SoFarFaithful(m: Memory, segments: seq<seq<byte>>, cap: nat)
    requires forall k :: 0 <= k <= |segments| ==> SameSoFar(m, segments, cap, k)
    ensures Faithful(m, segments, cap)
    decreases |segments|
  {
    hide Gives, FromSegment, Stops, Leaves, SameSoFar, Taken, Payloads, Agrees;
    if |segments| != 0 {
      var rest := segments[1..];
      AgreesIff(m, segments[0], cap);
      SameSoFarOne(m, segments, cap);
      assert SameSoFar(m, segments, cap, 1);
      if Stops(m, segments[0], cap) {
        SameSoFarCons(m, segments, cap, |segments|);
        assert rest[..|segments| - 1] == rest;
      } else {
        forall k | 0 <= k <= |rest|
          ensures SameSoFar(Leaves(m, segments[0], cap), rest, cap, k)
        {
          SameSoFarCons(m, segments, cap, k + 1);
        }
        SoFarFaithful(Leaves(m, segments[0], cap), rest, cap);
      }
    }
  }

  /** Whatever stands between the flags: frame_recv has returned what the stream
      carries at every flag of it if and only if the stream is faithful. */
  lemma FaithfulIff(segments: seq<seq<byte>>, cap: nat)
    requires forall seg :: seg in segments ==> FLAG !in seg
    ensures (forall k :: 0 <= k <= |segments| ==>
               var s := [FLAG] + Joined(segments[..k]); ReceiveAll(s, START, cap) == Carried(s, cap))
       <==> Faithful(NOTHING, segments, cap)
  {
    forall k | 0 <= k <= |segments|
      ensures var s := [FLAG] + Joined(segments[..k]);
              ReceiveAll(s, START, cap) == Carried(s, cap) <==> SameSoFar(NOTHING, segments, cap, k)
    {
      SegmentsOfJoined(segments[..k]);
      TakenAfterFlag(Joined(segments[..k]), cap);
    }
    hide ReceiveAll, Carried, Joined, SameSoFar, Faithful;
    if Faithful(NOTHING, segments, cap) {
      forall k | 0 <= k <= |segments|
        ensures SameSoFar(NOTHING, segments, cap, k)
      {
        FaithfulSoFar(NOTHING, segments, cap, k);
      }
    } else if forall k :: 0 <= k <= |segments| ==> SameSoFar(NOTHING, segments, cap, k) {
      SoFarFaithful(NOTHING, segments, cap);
    }
  }

  // ------------------------------------------------------------------
  // A segment of any kind before a clean rest
  // ------------------------------------------------------------------

  /** Neither an abort nor an escape directly before a flag. */
  predicate CleanSegment(seg: seq<byte>) {
    RESET !in seg && !EscapedAfter(false, seg)
  }

  predicate AllClean(segments: seq<seq<byte>>) {
    forall i :: 0 <= i < |segments| ==> CleanSegment(segments[i])
  }

  lemma {:induction false} CleanPart(escaped: bool, seg: seq<byte>, rest: seq<byte>)
    requires Clean(escaped, seg + ([FLAG] + rest))
    ensures RESET !in seg && !EscapedAfter(escaped, seg) && Clean(false, rest)
    decreases |seg|
  {
    var s := seg + ([FLAG] + rest);
    if |seg| == 0 {
      assert s[0] == FLAG && s[1..] == rest;
    } else {
      assert s[0] == seg[0] && s[1..] == seg[1..] + ([FLAG] + rest);
      CleanPart(seg[0] == ESC, seg[1..], rest);
    }
  }

  lemma {:induction false} CleanSegments(s: seq<byte>)
    requires Clean(false, s)
    ensures AllClean(Segments(s))
    decreases |s|
  {
    var i := FlagAt(s);
    if i < |s| {
      assert s == s[..i] + ([FLAG] + s[i + 1..]);
      CleanPart(false, s[..i], s[i + 1..]);
      CleanSegments(s[i + 1..]);
    }
  }

  lemma {:induction false} NothingAborted(n: nat, escaped: bool, seg: seq<byte>, cap: nat)
    requires RESET !in seg
    ensures Kept(seg) == seg
    ensures Held(n, seg) == n + |Unstuff(escaped, seg)|
    ensures Overflows(n, seg, cap) <==> n + |Unstuff(escaped, seg)| > cap
    decreases |seg|
  {
    hide Masked;
    if |seg| != 0 {
      var b, t := seg[0], seg[1..];
      assert seg == [b] + t;
      assert forall c :: c in t ==> c in seg;
      NothingAborted(HeldAfter(n, b), b == ESC, t, cap);
      if b == ESC {
        UnstuffEscape(escaped, t);
      } else {
        UnstuffData(escaped, b, t);
      }
    }
  }

  /** Nothing is remembered that makes a difference. */
  predicate Fresh(m: Memory) {
    !m.escaped && Fold(INIT, m.checked) == INIT
  }

  lemma FreshSegment(m: Memory, seg: seq<byte>, cap: nat)
    requires Fresh(m) && RESET !in seg
    ensures !Stops(m, seg, cap) && Gives(m, seg, cap) == FromSegment(seg, cap)
    ensures !EscapedAfter(false, seg) ==> Fresh(Leaves(m, seg, cap))
  {
    hide Fold, Unstuff;
    NothingAborted(0, false, seg, cap);
    FoldNothing();
    var u := Unstuff(false, seg);
    FoldAppend(INIT, m.checked, u);
    if u != [] && Checks(u) {
      ChecksIff(u);
    }
    assert u == [] ==> m.checked + u == m.checked;
  }

  lemma {:induction false} FreshTaken(m: Memory, segments: seq<seq<byte>>, cap: nat)
    requires Fresh(m) && AllClean(segments)
    ensures Taken(m, segments, cap) == Payloads(segments, cap)
    decreases |segments|
  {
    hide Gives, Stops, Leaves, FromSegment, Fresh, EscapedAfter;
    if |segments| != 0 {
      FreshSegment(m, segments[0], cap);
      assert CleanSegment(segments[0]);
      FreshTaken(Leaves(m, segments[0], cap), segments[1..], cap);
    }
  }

  /** The first segment with anything in it shows no trace of what is remembered:
      its bytes are too many; or they check as well or as badly as they would
      alone, and without the check bytes are the same. A single byte that checks
      ends the reading, which is no difference if nothing follows. */
  predicate Unseen(m: Memory, segments: seq<seq<byte>>, cap: nat)
    decreases |segments|
  {
    |segments| == 0
    || (if segments[0] == [] then Unseen(m, segments[1..], cap)
        else
          var u, v := Unstuff(false, segments[0]), Unstuff(m.escaped, segments[0]);
          || |u| > cap
          || (if |u| == 1 then Checks(m.checked + v) ==> Payloads(segments[1..], cap) == []
              else (Checks(u) <==> Checks(m.checked + v)) && (Checks(u) ==> Trim(u) == Trim(v))))
  }

  lemma EmptySegmentKeeps(m: Memory, cap: nat)
    ensures !Stops(m, [], cap) && Gives(m, [], cap) == [] && Leaves(m, [], cap) == m
    ensures FromSegment([], cap) == []
  {
    assert m.checked + [] == m.checked;
  }

  lemma SameLength(e: bool, e': bool, seg: seq<byte>)
    ensures |Unstuff(e, seg)| == |Unstuff(e', seg)|
    ensures seg != [] && !EscapedAfter(e, seg) ==> Unstuff(e, seg) != [] && !EscapedAfter(e', seg)
  {
    if |seg| != 0 && seg[0] != ESC {
      assert |Unstuff(e, seg)| == 1 + |Unstuff(false, seg[1..])|;
    }
    if |seg| != 0 && !EscapedAfter(e, seg) {
      LastIsData(e, seg);
    }
  }

  lemma {:induction false} LastIsData(e: bool, seg: seq<byte>)
    requires seg != [] && seg[|seg| - 1] != ESC
    ensures Unstuff(e, seg) != []
    decreases |seg|
  {
    if seg[0] == ESC {
      LastIsData(true, seg[1..]);
    }
  }

  /** What a segment with something in it does. */
  lemma FirstFrame(m: Memory, seg: seq<byte>, cap: nat)
    requires CleanSegment(seg) && seg != []
    ensures var u, v := Unstuff(false, seg), Unstuff(m.escaped, seg);
            var checks := |u| <= cap && Checks(m.checked + v);
            && u != [] && |v| == |u|
            && (Stops(m, seg, cap) <==> checks && |u| == 1)
            && Gives(m, seg, cap) == (if checks && |u| != 1 then [Trim(v)] else [])
            && FromSegment(seg, cap) == (if |u| <= cap && Checks(u) then [Trim(u)] else [])
            && Leaves(m, seg, cap) == NOTHING
  {
    hide Unstuff, Fold, Checks, EscapedAfter;
    NothingAborted(0, m.escaped, seg, cap);
    SameLength(false, m.escaped, seg);
  }

  lemma UnseenFrame(m: Memory, seg: seq<byte>, rest: seq<seq<byte>>, cap: nat)
    requires CleanSegment(seg) && seg != [] && AllClean(rest)
    ensures Taken(m, [seg] + rest, cap) == Payloads([seg] + rest, cap) <==> Unseen(m, [seg] + rest, cap)
  {
    FoldNothing();
    FirstFrame(m, seg, cap);
    FreshTaken(NOTHING, rest, cap);
    assert ([seg] + rest)[1..] == rest;
    var u := Unstuff(false, seg);
    if |u| == 1 {
      ChecksIff(u);
    }
    hide Gives, Leaves, FromSegment, Stops, Unstuff, Checks, Trim;
    var c := Payloads(rest, cap);
    assert [] + c == c;
    Heads(Gives(m, seg, cap), FromSegment(seg, cap), c);
  }

  lemma Heads<T>(x: seq<T>, y: seq<T>, c: seq<T>)
    ensures x + c == y + c <==> x == y
  {
    if x + c == y + c {
      assert |x| == |y|;
      assert x == (x + c)[..|x|] && y == (y + c)[..|y|];
    }
  }

  lemma {:induction false} UnseenIff(m: Memory, segments: seq<seq<byte>>, cap: nat)
    requires AllClean(segments)
    ensures Taken(m, segments, cap) == Payloads(segments, cap) <==> Unseen(m, segments, cap)
    decreases |segments|
  {
    hide CleanSegment;
    if |segments| != 0 {
      var rest := segments[1..];
      assert CleanSegment(segments[0]);
      assert segments == [segments[0]] + rest;
      if segments[0] == [] {
        EmptySegmentKeeps(m, cap);
        hide Gives, Leaves, FromSegment, Stops;
        UnseenIff(m, rest, cap);
        var x, y := Taken(m, rest, cap), Payloads(rest, cap);
        assert [] + x == x && [] + y == y;
      } else {
        UnseenFrame(m, segments[0], rest, cap);
      }
    }
  }

  /** Any bytes at all between two flags, and then a clean rest. The results are what
      the stream carries if and only if nothing with an abort in it is returned,
      except for a single byte at the very end, and the rest does not show what is
      remembered. */
  lemma ResultsIff(seg: seq<byte>, rest: seq<byte>, cap: nat)
    requires FLAG !in seg && Clean(false, rest)
    ensures var s := [FLAG] + (seg + [FLAG] + rest);
            ReceiveAll(s, START, cap) == Carried(s, cap)
            <==> if Returned(NOTHING, seg, cap) then
                   RESET !in seg || (Held(0, seg) == 1 && CarriedAfterFlag(rest, cap) == [])
                 else Unseen(Leaves(NOTHING, seg, cap), Segments(rest), cap)
  {
    var t := seg + [FLAG] + rest;
    TakenAfterFlag(t, cap);
    SegmentsCons(seg, rest);
    assert ([seg] + Segments(rest))[1..] == Segments(rest);
    CleanSegments(rest);
    FoldNothing();
    FreshTaken(NOTHING, Segments(rest), cap);
    UnseenIff(Leaves(NOTHING, seg, cap), Segments(rest), cap);
    OwnResult(seg, cap);
    hide Gives, FromSegment, Returned, Held, Taken, Unseen, ReceiveAll, Segments;
    var c := Payloads(Segments(rest), cap);
    TakenCons(NOTHING, seg, Segments(rest), cap);
    Heads(Gives(NOTHING, seg, cap), FromSegment(seg, cap), c);
    assert [] + c == c && [] + Taken(Leaves(NOTHING, seg, cap), Segments(rest), cap) == Taken(Leaves(NOTHING, seg, cap), Segments(rest), cap);
  }

  lemma TakenCons(m: Memory, seg: seq<byte>, rest: seq<seq<byte>>, cap: nat)
    ensures Taken(m, [seg] + rest, cap)
         == if Stops(m, seg, cap) then []
            else Gives(m, seg, cap) + Taken(Leaves(m, seg, cap), rest, cap)
    ensures Payloads([seg] + rest, cap) == FromSegment(seg, cap) + Payloads(rest, cap)
  {
    assert ([seg] + rest)[1..] == rest;
  }

  lemma OwnResult(seg: seq<byte>, cap: nat)
    ensures RESET in seg ==> FromSegment(seg, cap) == []
    ensures RESET !in seg ==> !Stops(NOTHING, seg, cap) && Gives(NOTHING, seg, cap) == FromSegment(seg, cap)
    ensures !Returned(NOTHING, seg, cap) ==> Gives(NOTHING, seg, cap) == []
  {
    FoldNothing();
    if RESET !in seg {
      FreshSegment(NOTHING, seg, cap);
    }
  }

  // ------------------------------------------------------------------
  // A segment of any kind before a frame
  // ------------------------------------------------------------------

  /** When the bytes between two flags do no harm to the frame that follows, nor are
      returned against its being carried alone: they are too many; or some are in
      the buffer at the flag, and these are returned only if there was no abort,
      and otherwise no escape is pending, or it does not matter; or none are, and
      the check is where it started. */
  predicate Harmless(seg: seq<byte>, payload: seq<byte>, cap: nat) {
    var all := Unstuff(false, Kept(seg));
    var plain := !EscapedAfter(false, Kept(seg)) || EscCheck(Stored(payload)[0]);
    || Overflows(0, seg, cap)
    || (if Held(0, seg) != 0 then
          if Checks(all) then RESET !in seg else plain
        else if plain then Fold(INIT, all) == INIT
        else payload == [] && Fold(INIT, all) == 0xffdf)
  }

  lemma CleanFrame(payload: seq<byte>, rest: seq<byte>)
    requires Clean(false, rest)
    ensures var body := Stuff(Stored(payload));
            && Clean(false, body + [FLAG] + rest) && CleanSegment(body) && FLAG !in body && body != []
  {
    var body := Stuff(Stored(payload));
    StuffTransparent(Stored(payload));
    CleanBody(false, body);
    CleanFlag();
    hide Clean, Stuff;
    CleanAppend(false, body, [FLAG]);
    CleanAppend(false, body + [FLAG], rest);
    EscapedAtFlag(body);
  }

  lemma EscapedAtFlag(body: seq<byte>)
    ensures !EscapedAfter(false, body + [FLAG])
  {}

  /** The frame as it is unstuffed behind a pending escape. */
  function UnderEscape(escaped: bool, w: seq<byte>): seq<byte>
    requires w != []
  {
    if !escaped || EscCheck(w[0]) then w else [Masked(w[0])] + w[1..]
  }

  /** Whether a frame shows what is remembered. */
  lemma FrameUnseen(m: Memory, payload: seq<byte>, rest: seq<seq<byte>>, cap: nat)
    requires |payload| + 2 <= cap
    ensures var w := Stored(payload);
            Unseen(m, [Stuff(w)] + rest, cap)
            <==> if !m.escaped || EscCheck(w[0]) then Fold(INIT, m.checked) == INIT
                 else payload == [] && Fold(INIT, m.checked) == 0xffdf
  {
    var w := Stored(payload);
    var body, v := Stuff(w), UnderEscape(m.escaped, w);
    StuffTransparent(w);
    StuffAfterEscape(w);
    CheckBytesCheck(payload);
    FoldAppend(INIT, m.checked, v);
    hide Stuff, Unstuff, Fold, EscCheck, Masked, CheckBytes;
    assert ([body] + rest)[1..] == rest;
    assert Unstuff(m.escaped, body) == v;
    assert body != [];
    if !m.escaped || EscCheck(w[0]) {
      ChecksFromStart(m.checked, w);
    } else {
      MaskedChecks(Fold(INIT, m.checked), w);
      MaskChanges(w[0]);
      MaskedTrim(payload);
    }
  }

  lemma MaskedTrim(payload: seq<byte>)
    ensures var w := Stored(payload);
            Trim([Masked(w[0])] + w[1..]) == Trim(w) <==> payload == []
  {
    var w := Stored(payload);
    var v := [Masked(w[0])] + w[1..];
    MaskChanges(w[0]);
    hide CheckBytes, Masked;
    if payload != [] {
      assert Trim(w)[0] == w[0] && Trim(v)[0] == v[0];
    }
  }

  /** A masked first byte checks from exactly one state. */
  lemma MaskedChecks(c: bv16, w: seq<byte>)
    requires w != [] && Checks(w)
    ensures Fold(c, [Masked(w[0])] + w[1..]) == 0 <==> c == 0xffdf
  {
    var x, t := w[0], w[1..];
    assert w == [x] + t;
    hide Update, Masked;
    assert Fold(INIT, w) == Fold(Update(INIT, x), t);
    assert ([Masked(x)] + t)[1..] == t;
    assert Fold(c, [Masked(x)] + t) == Fold(Update(c, Masked(x)), t);
    MaskedUpdate(x);
    if Fold(c, [Masked(x)] + t) == 0 {
      FoldInjective(Update(c, Masked(x)), Update(INIT, x), t);
      UpdateInjective(c, 0xffdf, Masked(x));
    }
  }

  lemma MaskedUpdate(x: byte)
    ensures Update(0xffdf, Masked(x)) == Update(INIT, x)
  {
    UpdateLinear(INIT, 0x20, x, 0x20);
    MaskBits(x);
    hide Masked, Update, Xor;
    XorNothing(Update(INIT, x));
  }

  lemma MaskBits(x: byte)
    ensures Xor(INIT, 0x20) == 0xffdf && x ^ 0x20 == Masked(x) && Update(0x20, 0x20) == 0
  {}

  /** Any bytes at all between two flags, then a frame and a clean rest: the results
      are what the stream carries if and only if those bytes are harmless. */
  lemma HarmlessIff(seg: seq<byte>, payload: seq<byte>, rest: seq<byte>, cap: nat)
    requires FLAG !in seg && Clean(false, rest) && |payload| + 2 <= cap
    ensures var s := [FLAG] + (seg + [FLAG] + (Stuff(Stored(payload)) + [FLAG] + rest));
            && Carried(s, cap) == FromSegment(seg, cap) + ([payload] + CarriedAfterFlag(rest, cap))
            && (ReceiveAll(s, START, cap) == Carried(s, cap) <==> Harmless(seg, payload, cap))
  {
    var w := Stored(payload);
    var body := Stuff(w);
    var tail := body + [FLAG] + rest;
    CleanFrame(payload, rest);
    GoodStored(payload, cap);
    CarriedFromFlag(seg + [FLAG] + tail, cap);
    CarriedCons(seg, tail, cap);
    CarriedCons(body, rest, cap);
    ResultsIff(seg, tail, cap);
    SegmentsCons(body, rest);
    FrameUnseen(Leaves(NOTHING, seg, cap), payload, Segments(rest), cap);
    FoldNothing();
    EmptyAppend(Unstuff(false, Kept(seg)));
    hide Unstuff, Fold, Stuff, Stored, EscCheck, ReceiveAll, Segments, FromSegment, Held, Overflows, EscapedAfter;
    assert After(NOTHING, seg).checked == Unstuff(false, Kept(seg));
  }

  lemma EmptyAppend(u: seq<byte>)
    ensures [] + u == u
  {}

  // ------------------------------------------------------------------
  // Aborts, and escapes before flags
  // ------------------------------------------------------------------

  /** With any number of aborts, but no escape before the flag, and not too many bytes:
      an abort does harm if and only if bytes stand behind the last one and the check
      of all bytes is right, which returns a frame that is not carried; or none do and
      the check is not by chance where it started, which loses the frame that
      follows. */
  lemma AbortsIff(seg: seq<byte>, payload: seq<byte>, rest: seq<byte>, cap: nat)
    requires FLAG !in seg && RESET in seg && !EscapedAfter(false, Kept(seg))
    requires Clean(false, rest) && |payload| + 2 <= cap
    ensures var s := [FLAG] + (seg + [FLAG] + (Stuff(Stored(payload)) + [FLAG] + rest));
            var all := Unstuff(false, Kept(seg));
            && Carried(s, cap) == [payload] + CarriedAfterFlag(rest, cap)
            && (ReceiveAll(s, START, cap) == Carried(s, cap)
                <==> Overflows(0, seg, cap)
                     || if Held(0, seg) != 0 then !Checks(all) else Fold(INIT, all) == INIT)
  {
    HarmlessIff(seg, payload, rest, cap);
    OwnResult(seg, cap);
    hide ReceiveAll, Stuff, Stored, Held, Unstuff, Fold, Overflows, FromSegment;
    var p := [payload] + CarriedAfterFlag(rest, cap);
    assert [] + p == p;
  }

  /** An escape directly before a flag, without aborts: the frame that follows is
      returned if and only if the escaped segment is itself returned or too long, or
      the first stored byte of the frame is one that is sent escaped. */
  lemma LoneEscapeIff(seg: seq<byte>, payload: seq<byte>, rest: seq<byte>, cap: nat)
    requires FLAG !in seg && RESET !in seg && EscapedAfter(false, seg)
    requires Clean(false, rest) && |payload| + 2 <= cap
    ensures var s := [FLAG] + (seg + [FLAG] + (Stuff(Stored(payload)) + [FLAG] + rest));
            var u := Unstuff(false, seg);
            && Carried(s, cap) == FromSegment(seg, cap) + ([payload] + CarriedAfterFlag(rest, cap))
            && (ReceiveAll(s, START, cap) == Carried(s, cap)
                <==> |u| > cap || (u != [] && Checks(u)) || EscCheck(Stored(payload)[0]))
  {
    HarmlessIff(seg, payload, rest, cap);
    NothingAborted(0, false, seg, cap);
    FoldNothing();
    InitIsNot();
    hide ReceiveAll, Stuff, Stored, Held, Unstuff, Fold, Overflows, FromSegment, EscCheck;
  }

  lemma InitIsNot()
    ensures INIT != 0xffdf
  {}

  /** A byte, an abort, and then a frame of any payload: the frame is lost. */
  lemma LossWitness(payload: seq<byte>, cap: nat)
    requires |payload| + 2 <= cap
    ensures var s := [FLAG] + ([0xff, RESET] + [FLAG] + (Stuff(Stored(payload)) + [FLAG] + []));
            Carried(s, cap) == [payload] && ReceiveAll(s, START, cap) == []
  {
    hide *;
    var seg: seq<byte> := [0xff, RESET];
    var body := Stuff(Stored(payload));
    OneAborted(cap);
    CleanFlag();
    CleanFrame(payload, []);
    HarmlessIff(seg, payload, [], cap);
    OwnResult(seg, cap);
    EmptyStream(cap);
    FrameLost(payload, cap);
    TakenAfterFlag(seg + [FLAG] + (body + [FLAG] + []), cap);
    SegmentsCons(seg, body + [FLAG] + []);
    SegmentsCons(body, []);
    assert [] + ([payload] + []) == [payload];
    assert [seg] + ([body] + []) == [seg, body];
    NoSegments();
  }

  lemma NoSegments()
    ensures Segments([]) == []
  {}

  lemma FrameLost(payload: seq<byte>, cap: nat)
    requires |payload| + 2 <= cap
    ensures Taken(NOTHING, [[0xff, RESET], Stuff(Stored(payload))], cap) == []
  {
    var seg: seq<byte> := [0xff, RESET];
    var w, m := Stored(payload), Memory(false, [0xff]);
    var body := Stuff(w);
    OneAborted(cap);
    AbortRemembered(cap);
    CleanFrame(payload, []);
    StuffTransparent(w);
    CheckBytesCheck(payload);
    ChecksFromStart([0xff], w);
    hide Stuff, Unstuff, Fold, Stored, CheckBytes, Gives, Stops, Leaves, Kept, Held, Overflows, Checks;
    TakenCons(NOTHING, seg, [body], cap);
    TakenCons(m, body, [], cap);
    FirstFrame(m, body, cap);
    assert [seg] + [body] == [seg, body] && [body] + [] == [body];
  }

  /** Behind other bytes, what checks alone does so exactly if the check is back where
      it started. */
  lemma ChecksFromStart(x: seq<byte>, w: seq<byte>)
    requires Checks(w)
    ensures Checks(x + w) <==> Fold(INIT, x) == INIT
  {
    FoldAppend(INIT, x, w);
    hide Fold;
    if Checks(x + w) {
      FoldInjective(Fold(INIT, x), INIT, w);
    }
  }

  lemma AbortRemembered(cap: nat)
    requires cap >= 1
    ensures var seg: seq<byte> := [0xff, RESET];
            && !Stops(NOTHING, seg, cap) && Gives(NOTHING, seg, cap) == []
            && Leaves(NOTHING, seg, cap) == Memory(false, [0xff])
  {
    OneAborted(cap);
    hide Kept, Held, Overflows, Unstuff, Fold;
    assert [] + [0xff as byte] == [0xff];
  }

  lemma OneAborted(cap: nat)
    requires cap >= 1
    ensures var seg: seq<byte> := [0xff, RESET];
            && FLAG !in seg && RESET in seg
            && Kept(seg) == [0xff] && Held(0, seg) == 0 && !Overflows(0, seg, cap)
            && !EscapedAfter(false, Kept(seg)) && Unstuff(false, [0xff]) == [0xff] && Fold(INIT, [0xff]) == 0xff
  {
    var seg: seq<byte> := [0xff, RESET];
    var x: seq<byte> := [0xff];
    assert seg[1] == RESET && seg[1..] == [RESET] && [RESET][1..] == [] && x[1..] == [];
    HeldCons(1, RESET, []);
    HeldCons(0, 0xff, [RESET]);
    assert Held(0, []) == 0 && [RESET] + [] == [RESET] && x + [RESET] == seg;
    assert Kept([RESET]) == [] && Held(1, [RESET]) == 0 && !Overflows(0, [], cap) && !Overflows(1, [RESET], cap);
  }

  /** The smallest stream with an abort that ends the reading: the call returns -1,
      as at the end. */
  lemma AbortWitness()
    ensures var s := [FLAG, 0xff, RESET, 0xff, FLAG];
            Carried(s, 63) == [] && Code(Receive(s, START, 63)) == EOF && Receive(s, START, 63).Success?
  {
    var x, seg: seq<byte> := [0xff], [0xff, RESET, 0xff];
    assert [FLAG, 0xff, RESET, 0xff, FLAG] == [FLAG] + (seg + [FLAG] + []);
    assert [FLAG] + (seg + [FLAG] + []) == [FLAG] + (seg + [FLAG]);
    OneMore(63);
    OwnResult(seg, 63);
    EmptyStream(63);
    CarriedFromFlag(seg + [FLAG] + [], 63);
    CarriedCons(seg, [], 63);
    AfterIs(NOTHING, seg);
    ThroughSegment(seg, [FLAG], Behind(NOTHING), 63);
    FoldNothing();
    hide Held, Kept, Unstuff, FromSegment, CarriedAfterFlag;
    assert ([FLAG] + (seg + [FLAG]))[1..] == seg + [FLAG];
    assert Receive([FLAG] + (seg + [FLAG]), START, 63) == Receive(seg + [FLAG], Behind(NOTHING), 63);
  }

  lemma OneMore(cap: nat)
    requires cap >= 1
    ensures var seg: seq<byte> := [0xff, RESET, 0xff];
            && FLAG !in seg && RESET in seg && !Overflows(0, seg, cap) && Held(0, seg) == 1
            && Checks(After(NOTHING, seg).checked)
  {
    var x, seg: seq<byte> := [0xff], [0xff, RESET, 0xff];
    var t := [RESET] + x;
    assert seg == x + t && seg[1..] == t && t[1..] == x && x[1..] == [];
    assert !Overflows(1, [], cap) && Held(1, []) == 1;
    assert Held(0, x) == 1 && !Overflows(0, x, cap);
    assert Held(1, t) == 1 && !Overflows(1, t, cap);
    assert seg[2] == 0xff && seg[1] == RESET && seg[0] == 0xff;
    assert Kept(x) == x && Kept(t) == x && Kept(seg) == x + x;
    assert Unstuff(false, x) == x;
    UnstuffData(false, 0xff, x);
    assert [] + (x + x) == x + x;
    CheckBytesCheck([]);
    assert [] + CheckBytes([]) == x + x;
  }

  lemma MaskChanges(b: byte)
    ensures Masked(b) != b
  {}

  lemma EscapeTwice(x: seq<byte>)
    ensures Unstuff(true, [ESC] + x) == Unstuff(false, [ESC] + x)
  {
    hide Unstuff;
    UnstuffEscape(true, x);
    UnstuffEscape(false, x);
  }

  lemma StuffAfterEscape(w: seq<byte>)
    requires w != []
    ensures Unstuff(true, Stuff(w)) == if EscCheck(w[0]) then w else [Masked(w[0])] + w[1..]
  {
    hide *;
    assert w == [w[0]] + w[1..];
    if EscCheck(w[0]) {
      EscapedFirst(w[0], w[1..]);
      Undone(w);
    } else {
      PlainFirst(w[0], w[1..]);
    }
  }

  lemma EscapedFirst(b: byte, p: seq<byte>)
    requires EscCheck(b)
    ensures Unstuff(true, Stuff([b] + p)) == Unstuff(false, Stuff([b] + p))
  {
    hide *;
    StuffOne(b, p);
    StuffByteIs(b);
    var m := [Masked(b)];
    assert ([ESC] + m) + Stuff(p) == [ESC] + (m + Stuff(p));
    EscapeTwice(m + Stuff(p));
  }

  lemma PlainFirst(b: byte, p: seq<byte>)
    requires !EscCheck(b)
    ensures Unstuff(true, Stuff([b] + p)) == [Masked(b)] + p
  {
    hide *;
    StuffOne(b, p);
    StuffByteIs(b);
    UnstuffData(true, b, Stuff(p));
    Undone(p);
  }

  lemma Undone(s: seq<byte>)
    ensures Unstuff(false, Stuff(s)) == s
  {
    hide *;
    StuffTransparent(s);
  }

  lemma StuffByteIs(b: byte)
    ensures StuffByte(b) == if EscCheck(b) then [ESC] + [Masked(b)] else [b]
    ensures !EscCheck(b) ==> b != ESC
  {}
}
